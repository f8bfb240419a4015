/** Parameter binding (internal/engine/bind.go): "?" markers outside literals are replaced by escaped
    literals, and what is bound into a VALUES payload is what the INSERT parser reads back. */
module Bind {
  import opened Values
  import opened Literals
  import opened InsertValues

  function FormatParam(v: Value): string {
    match v
    case Null => "NULL"
    case Text(s) => Quote(s)
    case Bool(b) => FormatBool(b)
    case Int(n) => FormatInt(n)
  }

  /** The number of bindable markers. */
  function Markers(s: string): nat {
    if s == "" then 0
    else Markers(s[..|s| - 1]) + if s[|s| - 1] == '?' && !Odd(s[..|s| - 1]) then 1 else 0
  }

  /** The statement with its markers replaced in order. */
  function Fill(s: string, args: seq<Value>): string
    requires Markers(s) <= |args|
  {
    if s == "" then ""
    else
      var init, c := s[..|s| - 1], s[|s| - 1];
      Fill(init, args) + if c == '?' && !Odd(init) then FormatParam(args[Markers(init)]) else [c]
  }

  lemma UnfoldMarkers(s: string, i: nat)
    requires i < |s|
    ensures Odd(s[..i + 1]) == (Odd(s[..i]) != (s[i] == QUOTE))
    ensures Markers(s[..i + 1]) == Markers(s[..i]) + if s[i] == '?' && !Odd(s[..i]) then 1 else 0
  {
    Snoc(s, i);
  }

  lemma UnfoldFill(s: string, i: nat, args: seq<Value>)
    requires i < |s| && Markers(s[..i + 1]) <= |args|
    ensures Markers(s[..i + 1]) == Markers(s[..i]) + if s[i] == '?' && !Odd(s[..i]) then 1 else 0
    ensures Fill(s[..i + 1], args) ==
            Fill(s[..i], args) + if s[i] == '?' && !Odd(s[..i]) then FormatParam(args[Markers(s[..i])]) else [s[i]]
  {
    Snoc(s, i);
  }

  lemma {:induction false} MarkersGrow(s: string, i: nat)
    requires i <= |s|
    ensures Markers(s[..i]) <= Markers(s)
    decreases |s| - i
  {
    if i < |s| {
      UnfoldMarkers(s, i);
      MarkersGrow(s, i + 1);
    } else {
      assert s[..i] == s;
    }
  }

  /** Counts the markers, skipping doubled quotes inside literals. */
  method PlaceholderCount(sql: string) returns (n: nat)
    ensures n == Markers(sql)
  {
    hide Odd, Markers;
    NoMarkers();
    n := 0;
    var inQuote, i := false, 0;
    while i < |sql|
      invariant 0 <= i <= |sql| && inQuote == Odd(sql[..i]) && n == Markers(sql[..i])
    {
      UnfoldMarkers(sql, i);
      if sql[i] == QUOTE {
        if inQuote && i + 1 < |sql| && sql[i + 1] == QUOTE {
          UnfoldMarkers(sql, i + 1);
          i := i + 1;
        } else {
          inQuote := !inQuote;
        }
      } else if sql[i] == '?' && !inQuote {
        n := n + 1;
      }
      i := i + 1;
    }
    assert sql[..i] == sql;
  }

  method HasPlaceholder(sql: string) returns (has: bool)
    ensures has <==> Markers(sql) > 0
  {
    hide Odd, Markers;
    NoMarkers();
    var inQuote, i := false, 0;
    while i < |sql|
      invariant 0 <= i <= |sql| && inQuote == Odd(sql[..i]) && Markers(sql[..i]) == 0
    {
      UnfoldMarkers(sql, i);
      if sql[i] == QUOTE {
        if inQuote && i + 1 < |sql| && sql[i + 1] == QUOTE {
          UnfoldMarkers(sql, i + 1);
          i := i + 1;
        } else {
          inQuote := !inQuote;
        }
      } else if sql[i] == '?' && !inQuote {
        MarkersGrow(sql, i + 1);
        return true;
      }
      i := i + 1;
    }
    assert sql[..i] == sql;
    return false;
  }

  lemma NoMarkers()
    ensures Markers("") == 0 && !Odd("") && forall args :: Fill("", args) == ""
  {
  }

  /** Binding succeeds exactly when there is one argument per marker. */
  method BindParams(sql: string, args: seq<Value>) returns (res: Result<string>)
    ensures res.Ok? <==> Markers(sql) == |args|
    ensures res.Ok? ==> res.value == Fill(sql, args)
  {
    hide Odd, Markers, Fill, FormatParam;
    NoMarkers();
    if |args| == 0 {
      var has := HasPlaceholder(sql);
      if has {
        return Err("missing params");
      }
      FillNothing(sql, args);
      return Ok(sql);
    }
    var out, arg, inQuote, i := "", 0, false, 0;
    while i < |sql|
      invariant 0 <= i <= |sql| && inQuote == Odd(sql[..i]) && arg == Markers(sql[..i]) <= |args|
      invariant out == Fill(sql[..i], args)
    {
      UnfoldMarkers(sql, i);
      MarkersGrow(sql, i + 1);
      var c := sql[i];
      if c == QUOTE {
        UnfoldFill(sql, i, args);
        if inQuote && i + 1 < |sql| && sql[i + 1] == QUOTE {
          UnfoldMarkers(sql, i + 1);
          UnfoldFill(sql, i + 1, args);
          out := out + [QUOTE] + [QUOTE];
          i := i + 1;
        } else {
          inQuote := !inQuote;
          out := out + [c];
        }
      } else if c == '?' && !inQuote {
        if arg >= |args| {
          return Err("too few params");
        }
        UnfoldFill(sql, i, args);
        out := out + FormatParam(args[arg]);
        arg := arg + 1;
      } else {
        UnfoldFill(sql, i, args);
        out := out + [c];
      }
      i := i + 1;
    }
    assert sql[..i] == sql;
    if arg != |args| {
      return Err("too many params");
    }
    return Ok(out);
  }

  lemma {:induction false} FillNothing(s: string, args: seq<Value>)
    requires Markers(s) == 0
    ensures Fill(s, args) == s
  {
    if s != "" {
      FillNothing(s[..|s| - 1], args);
    }
  }

  // --------------------------------------------------- bound text is inert

  lemma {:induction false} OddConcat(a: string, b: string)
    ensures Odd(a + b) == (Odd(a) != Odd(b))
    decreases |b|
  {
    if b == "" {
      assert a + b == a;
    } else {
      assert (a + b)[..|a + b| - 1] == a + b[..|b| - 1];
      OddConcat(a, b[..|b| - 1]);
    }
  }

  predicate Special(c: char) { c == ',' || c == '(' || c == ')' || c == '?' }

  /** Every special character of `t` lies inside a literal of `t`. */
  predicate Inert(t: string) {
    !Odd(t) && forall i :: 0 <= i < |t| && Special(t[i]) ==> Odd(t[..i])
  }

  lemma {:induction false} NoQuotesEven(t: string)
    requires QUOTE !in t
    ensures !Odd(t)
  {
    if t != "" {
      assert t[|t| - 1] in t;
      NoQuotesEven(t[..|t| - 1]);
    }
  }

  lemma OddPair(c: char)
    ensures Odd([c]) == (c == QUOTE) && !Odd([QUOTE, QUOTE])
  {
    assert [c][..0] == "" && [QUOTE, QUOTE][..1] == [QUOTE];
    assert Odd([QUOTE]) by { assert [QUOTE][..0] == ""; }
  }

  /** Within escaped text every character but a quote follows an even number of quotes. */
  lemma {:induction false} EscapeParity(s: string)
    ensures !Odd(Escape(s))
    ensures forall i :: 0 <= i < |Escape(s)| && Escape(s)[i] != QUOTE ==> !Odd(Escape(s)[..i])
  {
    if s != "" {
      EscapeParity(s[1..]);
      var head, rest := if s[0] == QUOTE then [QUOTE, QUOTE] else [s[0]], Escape(s[1..]);
      var all := Escape(s);
      assert all == head + rest;
      OddPair(s[0]);
      OddConcat(head, rest);
      forall i | 0 <= i < |all| && all[i] != QUOTE
        ensures !Odd(all[..i])
      {
        if i < |head| {
          assert all[..i] == "";
        } else {
          assert all[..i] == head + rest[..i - |head|];
          OddConcat(head, rest[..i - |head|]);
        }
      }
    }
  }

  lemma QuoteInert(s: string)
    ensures Inert(Quote(s))
  {
    var e, t := Escape(s), Quote(s);
    assert Odd([QUOTE]) by { assert [QUOTE][..0] == ""; }
    EscapeParity(s);
    OddConcat([QUOTE], e);
    OddConcat([QUOTE] + e, [QUOTE]);
    forall i | 0 <= i < |t| && Special(t[i])
      ensures Odd(t[..i])
    {
      assert t[..i] == [QUOTE] + e[..i - 1];
      OddConcat([QUOTE], e[..i - 1]);
    }
  }

  lemma ParamInert(v: Value)
    ensures Inert(FormatParam(v))
  {
    if v.Text? {
      QuoteInert(v.s);
    } else {
      var t := FormatParam(v);
      if v.Int? { assert forall i :: 0 <= i < |t| ==> t[i] == '-' || IsDigit(t[i]); }
      assert forall i :: 0 <= i < |t| ==> t[i] != QUOTE && !Special(t[i]);
      NoQuotesEven(t);
    }
  }

  /** Outside a literal, inert text becomes part of the current value: it splits nothing, closes
      nothing and holds no marker. */
  lemma {:induction false} InertAbsorbed(a: string, t: string, k: nat)
    requires !Odd(a) && Inert(t) && k <= |t|
    ensures Markers(a + t[..k]) == Markers(a)
    ensures SplitCommas(a + t[..k]) == Grow(SplitCommas(a), t[..k])
    ensures ScanRows(a + t[..k]) == ScanRows(a).(current := ScanRows(a).current + t[..k])
    decreases k
  {
    hide Odd, Markers, SplitCommas, ScanRows, Special;
    var p, q := SplitCommas(a), ScanRows(a);
    if k == 0 {
      assert a + t[..0] == a;
      assert p[|p| - 1] + "" == p[|p| - 1] && q.current + "" == q.current;
    } else {
      var u, c := t[..k - 1], t[k - 1];
      InertAbsorbed(a, t, k - 1);
      OddConcat(a, u);
      InertStep(a + u, c);
      assert t[..k] == u + [c] && a + u + [c] == a + (u + [c]);
      assert p[|p| - 1] + u + [c] == p[|p| - 1] + (u + [c]);
      assert q.current + u + [c] == q.current + (u + [c]);
    }
  }

  lemma InertStep(s: string, c: char)
    requires Special(c) ==> Odd(s)
    ensures Markers(s + [c]) == Markers(s)
    ensures SplitCommas(s + [c]) == Grow(SplitCommas(s), [c])
    ensures ScanRows(s + [c]) == ScanRows(s).(current := ScanRows(s).current + [c])
  {
    assert (s + [c])[..|s|] == s;
  }

  lemma InertWhole(a: string, t: string)
    requires !Odd(a) && Inert(t)
    ensures !Odd(a + t) && Markers(a + t) == Markers(a)
    ensures SplitCommas(a + t) == Grow(SplitCommas(a), t)
    ensures ScanRows(a + t) == ScanRows(a).(current := ScanRows(a).current + t)
  {
    assert t[..|t|] == t;
    InertAbsorbed(a, t, |t|);
    OddConcat(a, t);
  }

  /** No marker survives binding. */
  lemma {:induction false} NothingLeftToBind(s: string, args: seq<Value>)
    requires Markers(s) <= |args|
    ensures Markers(Fill(s, args)) == 0 && Odd(Fill(s, args)) == Odd(s)
  {
    if s != "" {
      var init, c := s[..|s| - 1], s[|s| - 1];
      NothingLeftToBind(init, args);
      var f := Fill(init, args);
      if c == '?' && !Odd(init) {
        ParamInert(args[Markers(init)]);
        InertWhole(f, FormatParam(args[Markers(init)]));
      } else {
        assert (f + [c])[..|f|] == f;
      }
    }
  }

  // -------------------------------------------- binding into VALUES and back

  function Init<T>(s: seq<T>): seq<T>
    requires s != []
  {
    s[..|s| - 1]
  }

  function Last<T>(s: seq<T>): T
    requires s != []
  {
    s[|s| - 1]
  }

  /** `v1,v2,...` as literals, and the same with markers. */
  function RowText(vals: seq<Value>): string
    requires vals != []
  {
    if |vals| == 1 then FormatParam(vals[0]) else RowText(Init(vals)) + "," + FormatParam(Last(vals))
  }

  function RowMarks(vals: seq<Value>): string
    requires vals != []
  {
    if |vals| == 1 then "?" else RowMarks(Init(vals)) + "," + "?"
  }

  predicate NoEmptyRow(rows: seq<seq<Value>>) { forall i :: 0 <= i < |rows| ==> rows[i] != [] }

  /** `(..),(..)` as literals, and the same with markers. */
  function RowsText(rows: seq<seq<Value>>): string
    requires rows != [] && NoEmptyRow(rows)
  {
    (if |rows| == 1 then "" else RowsText(Init(rows)) + ",") + "(" + RowText(Last(rows)) + ")"
  }

  function RowsMarks(rows: seq<seq<Value>>): string
    requires rows != [] && NoEmptyRow(rows)
  {
    (if |rows| == 1 then "" else RowsMarks(Init(rows)) + ",") + "(" + RowMarks(Last(rows)) + ")"
  }

  function Flatten(rows: seq<seq<Value>>): seq<Value> {
    if rows == [] then [] else Flatten(Init(rows)) + Last(rows)
  }

  /** One more character of a template. */
  lemma FillChar(a: string, c: char, args: seq<Value>)
    requires !Odd(a) && c != QUOTE && Markers(a) + (if c == '?' then 1 else 0) <= |args|
    ensures !Odd(a + [c]) && Markers(a + [c]) == Markers(a) + if c == '?' then 1 else 0
    ensures Fill(a + [c], args) == Fill(a, args) + if c == '?' then FormatParam(args[Markers(a)]) else [c]
  {
    assert (a + [c])[..|a|] == a;
  }

  lemma {:induction false} FillRow(a: string, vals: seq<Value>, args: seq<Value>)
    requires !Odd(a) && vals != [] && Markers(a) + |vals| <= |args| && args[Markers(a)..Markers(a) + |vals|] == vals
    ensures !Odd(a + RowMarks(vals)) && Markers(a + RowMarks(vals)) == Markers(a) + |vals|
    ensures Fill(a + RowMarks(vals), args) == Fill(a, args) + RowText(vals)
    decreases |vals|
  {
    hide Odd, Markers, Fill, FormatParam;
    var k, n := Markers(a), |vals|;
    assert args[k..k + n][n - 1] == args[k + n - 1];
    if n == 1 {
      FillChar(a, '?', args);
    } else {
      var init := Init(vals);
      assert args[k..k + n - 1] == args[k..k + n][..n - 1];
      FillRow(a, init, args);
      var m := a + RowMarks(init);
      FillChar(m, ',', args);
      FillChar(m + ",", '?', args);
      assert a + RowMarks(vals) == m + "," + "?";
      assert Fill(a, args) + RowText(vals) == Fill(a, args) + RowText(init) + "," + FormatParam(Last(vals));
    }
  }

  /** Binding the values in order writes them where the markers stood. */
  lemma {:induction false} FillRows(rows: seq<seq<Value>>, args: seq<Value>)
    requires rows != [] && NoEmptyRow(rows) && Flatten(rows) <= args
    ensures !Odd(RowsMarks(rows)) && Markers(RowsMarks(rows)) == |Flatten(rows)|
    ensures Fill(RowsMarks(rows), args) == RowsText(rows)
    decreases |rows|
  {
    hide Odd, Markers, Fill, FormatParam, RowMarks, RowText;
    NoMarkers();
    var row := Last(rows);
    var a, done := "", "";
    if |rows| > 1 {
      FillRows(Init(rows), args);
      FillChar(RowsMarks(Init(rows)), ',', args);
      a, done := RowsMarks(Init(rows)) + ",", RowsText(Init(rows)) + ",";
    }
    FillChar(a, '(', args);
    var k := |Flatten(Init(rows))|;
    assert args[k..k + |row|] == row by {
      assert Flatten(rows)[k..k + |row|] == row;
      assert args[..|Flatten(rows)|] == Flatten(rows);
    }
    FillRow(a + "(", row, args);
    FillChar(a + "(" + RowMarks(row), ')', args);
    assert "" + "(" == "(";
  }

  // ------------------------------------------------------------ reading back

  function Formatted(vals: seq<Value>): (t: seq<string>)
    ensures |t| == |vals| && forall i :: 0 <= i < |t| ==> t[i] == FormatParam(vals[i])
  {
    seq(|vals|, i requires 0 <= i < |vals| => FormatParam(vals[i]))
  }

  lemma CommaStep(a: string)
    requires !Odd(a)
    ensures !Odd(a + ",") && SplitCommas(a + ",") == SplitCommas(a) + [""]
    ensures ScanRows(a + ",") == ScanRows(a).(current := ScanRows(a).current + ",")
  {
    assert (a + ",")[..|a|] == a;
  }

  lemma {:induction false} RowTextSplits(vals: seq<Value>)
    requires vals != []
    ensures !Odd(RowText(vals)) && SplitCommas(RowText(vals)) == Formatted(vals)
    decreases |vals|
  {
    hide Odd, Markers, FormatParam, SplitCommas, ScanRows, Inert;
    ParamInert(Last(vals));
    ScanNothing();
    if |vals| == 1 {
      InertWhole("", FormatParam(vals[0]));
      assert "" + FormatParam(vals[0]) == FormatParam(vals[0]);
    } else {
      var init := Init(vals);
      RowTextSplits(init);
      CommaStep(RowText(init));
      InertWhole(RowText(init) + ",", FormatParam(Last(vals)));
      assert "" + FormatParam(Last(vals)) == FormatParam(Last(vals));
    }
  }

  lemma {:induction false} RowTextScans(a: string, vals: seq<Value>)
    requires vals != [] && !Odd(a)
    ensures !Odd(a + RowText(vals))
    ensures ScanRows(a + RowText(vals)) == ScanRows(a).(current := ScanRows(a).current + RowText(vals))
    decreases |vals|
  {
    hide Odd, Markers, FormatParam, SplitCommas, ScanRows, Inert;
    ParamInert(Last(vals));
    if |vals| == 1 {
      InertWhole(a, FormatParam(vals[0]));
    } else {
      var init := Init(vals);
      RowTextScans(a, init);
      CommaStep(a + RowText(init));
      InertWhole(a + RowText(init) + ",", FormatParam(Last(vals)));
      assert a + RowText(init) + "," + FormatParam(Last(vals)) == a + RowText(vals);
      var c := ScanRows(a).current;
      assert c + RowText(init) + "," + FormatParam(Last(vals)) == c + RowText(vals);
    }
  }

  lemma ParenStep(a: string)
    requires !Odd(a)
    ensures !Odd(a + "(") && (ScanRows(a).depth == 0 ==> ScanRows(a + "(") == Scan(1, "", ScanRows(a).rows))
    ensures !Odd(a + ")") && (ScanRows(a).depth == 1 ==>
              ScanRows(a + ")") == Scan(0, ScanRows(a).current + ")", ScanRows(a).rows + [ScanRows(a).current]))
  {
    assert (a + "(")[..|a|] == a && (a + ")")[..|a|] == a;
  }

  function Texts(rows: seq<seq<Value>>): (t: seq<string>)
    requires NoEmptyRow(rows)
    ensures |t| == |rows| && forall i :: 0 <= i < |t| ==> t[i] == RowText(rows[i])
  {
    seq(|rows|, i requires 0 <= i < |rows| => RowText(rows[i]))
  }

  lemma {:induction false} RowsTextScans(rows: seq<seq<Value>>)
    requires rows != [] && NoEmptyRow(rows)
    ensures !Odd(RowsText(rows)) && ScanRows(RowsText(rows)).depth == 0
    ensures ScanRows(RowsText(rows)).rows == Texts(rows)
    decreases |rows|
  {
    hide Odd, Markers, FormatParam, SplitCommas, ScanRows, RowText, Texts;
    ScanNothing();
    var row := Last(rows);
    var a := "";
    if |rows| > 1 {
      RowsTextScans(Init(rows));
      CommaStep(RowsText(Init(rows)));
      a := RowsText(Init(rows)) + ",";
    }
    assert ScanRows(a).depth == 0 && ScanRows(a).rows == Texts(Init(rows));
    ParenStep(a);
    RowTextScans(a + "(", row);
    ParenStep(a + "(" + RowText(row));
    assert "" + RowText(row) == RowText(row) && "" + "(" == "(";
    assert Texts(rows) == Texts(Init(rows)) + [RowText(row)];
  }

  /** The row that values make up, and its key. */
  function ExpectedRow(vals: seq<Value>, columns: seq<Column>): InsertRow
    requires |vals| == |columns|
  {
    if columns == [] then InsertRow("", map[])
    else
      var r, c, v := ExpectedRow(Init(vals), Init(columns)), Last(columns), Last(vals);
      InsertRow(if c.primary then ValueKey(v) else r.key, r.row[c.name := v])
  }

  /** Values of the column's type; integers fit 64 bits. */
  predicate Storable(v: Value, t: Type) {
    HasType(v, t) && (v.Int? ==> InRange(v.n))
  }

  predicate StorableRow(vals: seq<Value>, columns: seq<Column>) {
    |vals| == |columns| && forall i :: 0 <= i < |vals| ==> Storable(vals[i], columns[i].typ)
  }

  predicate AllStorable(rows: seq<seq<Value>>, columns: seq<Column>) {
    forall i :: 0 <= i < |rows| ==> |rows[i]| == |columns| && StorableRow(rows[i], columns)
  }

  lemma ParamRoundTrip(v: Value, t: Type)
    requires Storable(v, t)
    ensures ParseVal(FormatParam(v), t) == Ok(v)
  {
    if v.Text? {
      UnquoteQuote(v.s);
    } else {
      TrimTrimmed(FormatParam(v));
      if v.Int? {
        IntRoundTrip(v.n);
        assert FormatInt(v.n)[0] == '-' || IsDigit(FormatInt(v.n)[0]);
      }
    }
  }

  lemma {:induction false} FieldsRoundTrip(vals: seq<Value>, columns: seq<Column>)
    requires StorableRow(vals, columns)
    ensures Fields(Formatted(vals), columns) == Ok(ExpectedRow(vals, columns))
    decreases |columns|
  {
    if columns != [] {
      hide FormatParam, ParseVal;
      FieldsRoundTrip(Init(vals), Init(columns));
      assert Formatted(vals)[..|vals| - 1] == Formatted(Init(vals));
      ParamRoundTrip(Last(vals), Last(columns).typ);
    }
  }

  function ExpectedRows(rows: seq<seq<Value>>, columns: seq<Column>): (t: seq<InsertRow>)
    requires forall i :: 0 <= i < |rows| ==> |rows[i]| == |columns|
    ensures |t| == |rows| && forall i :: 0 <= i < |t| ==> t[i] == ExpectedRow(rows[i], columns)
  {
    seq(|rows|, i requires 0 <= i < |rows| => ExpectedRow(rows[i], columns))
  }

  /** What INSERT demands of the keys of a batch. */
  predicate KeysFit(rows: seq<InsertRow>, columns: seq<Column>) {
    && (HasPrimary(columns) ==> forall i :: 0 <= i < |rows| ==> rows[i].key != "")
    && (forall i, j :: 0 <= i < j < |rows| && rows[i].key != "" ==> rows[i].key != rows[j].key)
  }

  lemma {:induction false} ParseExpected(rows: seq<seq<Value>>, columns: seq<Column>)
    requires columns != [] && AllStorable(rows, columns)
    ensures NoEmptyRow(rows)
    ensures var res := RowsOf(Texts(rows), columns, false);
            if KeysFit(ExpectedRows(rows, columns), columns) then res == Ok(ExpectedRows(rows, columns)) else res.Err?
    decreases |rows|
  {
    hide RowText, SplitCommas, Fields, ExpectedRow, StorableRow;
    NonEmptyRows(rows, columns);
    if rows != [] {
      var init, row := Init(rows), Last(rows);
      ParseExpected(init, columns);
      assert Texts(rows)[..|rows| - 1] == Texts(init);
      var all, some, last := ExpectedRows(rows, columns), ExpectedRows(init, columns), ExpectedRow(row, columns);
      assert all == some + [last];
      RowTextSplits(row);
      FieldsRoundTrip(row, columns);
      KeysFitSnoc(some, last, columns);
    }
  }

  lemma NonEmptyRows(rows: seq<seq<Value>>, columns: seq<Column>)
    requires columns != [] && AllStorable(rows, columns)
    ensures NoEmptyRow(rows) && forall i :: 0 <= i < |rows| ==> |rows[i]| == |columns|
  {
  }

  lemma KeysFitSnoc(rows: seq<InsertRow>, r: InsertRow, columns: seq<Column>)
    ensures KeysFit(rows + [r], columns) <==> KeysFit(rows, columns) && CheckKey(r, columns, rows, false).Ok?
  {
    var all := rows + [r];
    assert all[|rows|] == r && forall i :: 0 <= i < |rows| ==> all[i] == rows[i];
  }

  /** Binding typed values into a VALUES template and parsing the result gives the values back; it
      fails exactly when the keys break the rule that INSERT enforces anyway. */
  lemma BindThenParse(rows: seq<seq<Value>>, columns: seq<Column>)
    requires rows != [] && columns != [] && AllStorable(rows, columns)
    ensures NoEmptyRow(rows) && Markers(RowsMarks(rows)) == |Flatten(rows)|
    ensures var res := Meaning(Fill(RowsMarks(rows), Flatten(rows)), columns, false);
            if KeysFit(ExpectedRows(rows, columns), columns) then res == Ok(ExpectedRows(rows, columns)) else res.Err?
  {
    hide RowText, RowMarks, SplitCommas, ScanRows, Fields, ExpectedRow, Markers, Fill, Odd, StorableRow, RowsOf;
    NonEmptyRows(rows, columns);
    FillRows(rows, Flatten(rows));
    var text := RowsText(rows);
    assert Trimmed(text) by { TextTrimmed(rows); }
    TrimTrimmed(text);
    RowsTextScans(rows);
    ParseExpected(rows, columns);
  }

  lemma {:induction false} TextTrimmed(rows: seq<seq<Value>>)
    requires rows != [] && NoEmptyRow(rows)
    ensures RowsText(rows) != "" && RowsText(rows)[0] == '(' && Trimmed(RowsText(rows))
    decreases |rows|
  {
    if |rows| > 1 {
      TextTrimmed(Init(rows));
    }
  }
}
