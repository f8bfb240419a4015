/** The VALUES payload of INSERT: the two-stage parser (internal/engine/insert.go, parseInsertRows)
    and the single-pass one that production uses (insertfast.go, parseInsertRowsMode). Both are
    proved against one meaning, so they give the same rows or the same first error on every input. */
module InsertValues {
  import opened Values
  import opened Literals

  datatype InsertRow = InsertRow(key: string, row: Row)

  // ------------------------------------------------- the meaning of a payload

  /** Whether the end of `s` lies inside a quoted literal: the quotes so far are odd in number. A
      doubled quote inside a literal leaves this unchanged. */
  predicate Odd(s: string) {
    s != "" && Odd(s[..|s| - 1]) != (s[|s| - 1] == QUOTE)
  }

  /** The same pieces with the last one longer. */
  function Grow(pieces: seq<string>, more: string): (grown: seq<string>)
    requires |pieces| > 0
    ensures |grown| == |pieces|
  {
    pieces[|pieces| - 1 := pieces[|pieces| - 1] + more]
  }

  /** The pieces between the commas that are not quoted; parentheses do not protect a comma. */
  function SplitCommas(s: string): (pieces: seq<string>)
    ensures |pieces| > 0
  {
    if s == "" then [""]
    else
      var init, c := s[..|s| - 1], s[|s| - 1];
      var pieces := SplitCommas(init);
      if c == ',' && !Odd(init) then pieces + [""] else Grow(pieces, [c])
  }

  /** What has been seen of a payload: the nesting depth (negative after stray closers), the text
      since the last opener at depth 0, and the rows closed so far. */
  datatype Scan = Scan(depth: int, current: string, rows: seq<string>)

  function ScanChar(p: Scan, quoted: bool, c: char): Scan {
    if quoted || c == QUOTE then p.(current := p.current + [c])
    else if c == '(' && p.depth == 0 then Scan(1, "", p.rows)
    else if c == '(' then Scan(p.depth + 1, p.current + [c], p.rows)
    else if c == ')' && p.depth == 1 then Scan(0, p.current + [c], p.rows + [p.current])
    else if c == ')' then Scan(p.depth - 1, p.current + [c], p.rows)
    else p.(current := p.current + [c])
  }

  function ScanRows(s: string): Scan {
    if s == "" then Scan(0, "", [])
    else ScanChar(ScanRows(s[..|s| - 1]), Odd(s[..|s| - 1]), s[|s| - 1])
  }

  predicate HasPrimary(columns: seq<Column>) {
    exists i :: 0 <= i < |columns| && columns[i].primary
  }

  /** Typed values column by column; the first bad literal is the error. */
  function Fields(vals: seq<string>, columns: seq<Column>): Result<InsertRow>
    requires |vals| == |columns|
  {
    if columns == [] then Ok(InsertRow("", map[]))
    else
      var n := |columns| - 1;
      match Fields(vals[..n], columns[..n])
      case Err(e) => Err(e)
      case Ok(r) =>
        match ParseVal(vals[n], columns[n].typ)
        case Err(e) => Err(e)
        case Ok(v) => Ok(InsertRow(if columns[n].primary then ValueKey(v) else r.key, r.row[columns[n].name := v]))
  }

  predicate HasKey(rows: seq<InsertRow>, key: string) {
    exists i :: 0 <= i < |rows| && rows[i].key == key
  }

  /** The key policy for a row after `earlier` ones. */
  function CheckKey(r: InsertRow, columns: seq<Column>, earlier: seq<InsertRow>, keepLast: bool): Result<InsertRow> {
    if r.key == "" && HasPrimary(columns) then Err("primary key required")
    else if r.key != "" && !keepLast && HasKey(earlier, r.key) then Err("duplicate primary key")
    else Ok(r)
  }

  function RowOf(vals: seq<string>, columns: seq<Column>, earlier: seq<InsertRow>, keepLast: bool): Result<InsertRow> {
    if |vals| != |columns| then Err("column count mismatch")
    else match Fields(vals, columns)
      case Err(e) => Err(e)
      case Ok(r) => CheckKey(r, columns, earlier, keepLast)
  }

  function RowsOf(groups: seq<string>, columns: seq<Column>, keepLast: bool): Result<seq<InsertRow>> {
    if groups == [] then Ok([])
    else match RowsOf(groups[..|groups| - 1], columns, keepLast)
      case Err(e) => Err(e)
      case Ok(rows) =>
        match RowOf(SplitCommas(groups[|groups| - 1]), columns, rows, keepLast)
        case Err(e) => Err(e)
        case Ok(r) => Ok(rows + [r])
  }

  /** The rows of a payload, or its first error. */
  function Meaning(raw: string, columns: seq<Column>, keepLast: bool): Result<seq<InsertRow>> {
    var groups := ScanRows(TrimSpace(raw)).rows;
    if groups == [] then Err("INSERT requires VALUES") else RowsOf(groups, columns, keepLast)
  }

  // ------------------------------------------------------------ scanning facts

  lemma Snoc(s: string, i: nat)
    requires i < |s|
    ensures s[..i + 1][..i] == s[..i] && s[..i + 1][i] == s[i] && s[..i + 1] == s[..i] + [s[i]]
  {
  }

  /** One character of a scan, unfolded at position `i`. */
  lemma Unfold(s: string, i: nat)
    requires i < |s|
    ensures Odd(s[..i + 1]) == (Odd(s[..i]) != (s[i] == QUOTE))
    ensures ScanRows(s[..i + 1]) == ScanChar(ScanRows(s[..i]), Odd(s[..i]), s[i])
    ensures s[i] == ',' && !Odd(s[..i]) ==> SplitCommas(s[..i + 1]) == SplitCommas(s[..i]) + [""]
    ensures !(s[i] == ',' && !Odd(s[..i])) ==>
              SplitCommas(s[..i + 1]) == Grow(SplitCommas(s[..i]), [s[i]])
  {
    Snoc(s, i);
  }

  lemma {:induction false} RowsGrow(s: string, i: nat)
    requires i <= |s|
    ensures ScanRows(s[..i]).rows <= ScanRows(s).rows
    decreases |s| - i
  {
    if i < |s| {
      Unfold(s, i);
      RowsGrow(s, i + 1);
    } else {
      assert s[..i] == s;
    }
  }

  lemma {:induction false} FirstErrorStays(some: seq<string>, all: seq<string>, columns: seq<Column>, keepLast: bool)
    requires some <= all && RowsOf(some, columns, keepLast).Err?
    ensures RowsOf(all, columns, keepLast) == RowsOf(some, columns, keepLast)
    decreases |all|
  {
    if |some| < |all| {
      FirstErrorStays(some, all[..|all| - 1], columns, keepLast);
    } else {
      assert some == all;
    }
  }

  /** One more group: its row joins the rows so far, or its error is the answer for the payload. */
  lemma NextRow(groups: seq<string>, i: nat, columns: seq<Column>, keepLast: bool, rows: seq<InsertRow>)
    requires i < |groups| && RowsOf(groups[..i], columns, keepLast) == Ok(rows)
    ensures match RowOf(SplitCommas(groups[i]), columns, rows, keepLast)
            case Err(e) => RowsOf(groups, columns, keepLast) == Err(e)
            case Ok(r) => RowsOf(groups[..i + 1], columns, keepLast) == Ok(rows + [r])
  {
    assert groups[..i + 1][..i] == groups[..i] && groups[..i + 1] <= groups;
    if RowsOf(groups[..i + 1], columns, keepLast).Err? {
      FirstErrorStays(groups[..i + 1], groups, columns, keepLast);
    }
  }

  // -------------------------------------------------------------- two stages

  function TrimAll(pieces: seq<string>): (t: seq<string>)
    ensures |t| == |pieces| && forall i :: 0 <= i < |t| ==> t[i] == TrimSpace(pieces[i])
  {
    seq(|pieces|, i requires 0 <= i < |pieces| => TrimSpace(pieces[i]))
  }

  lemma TrimAllSnoc(pieces: seq<string>, piece: string)
    ensures TrimAll(pieces + [piece]) == TrimAll(pieces) + [TrimSpace(piece)]
  {
  }

  /** The groups between balanced top-level parentheses, trimmed. */
  method SplitRows(s: string) returns (out: seq<string>)
    ensures out == TrimAll(ScanRows(s).rows)
  {
    hide ScanRows, Odd, SplitCommas, TrimSpace, TrimAll;
    ghost var seen := Scan(0, "", []);
    ScanNothing();
    out := [];
    var start, depth, quote, i := -1, 0, false, 0;
    while i < |s|
      invariant 0 <= i <= |s|
      invariant quote == Odd(s[..i]) && seen == ScanRows(s[..i])
      invariant depth == seen.depth && out == TrimAll(seen.rows)
      invariant depth >= 1 ==> 0 <= start <= i && s[start..i] == seen.current
    {
      Unfold(s, i);
      TrimAllSnoc(seen.rows, seen.current);
      seen := ScanChar(seen, quote, s[i]);
      if depth >= 1 { assert s[start..i + 1] == s[start..i] + [s[i]]; }
      if s[i] == QUOTE {
        if quote && i + 1 < |s| && s[i + 1] == QUOTE {
          Unfold(s, i + 1);
          if depth >= 1 { assert s[start..i + 2] == s[start..i + 1] + [s[i + 1]]; }
          seen := ScanChar(seen, quote, s[i + 1]);
          i := i + 1;
        } else {
          quote := !quote;
        }
      } else if !quote {
        if s[i] == '(' {
          if depth == 0 {
            start := i + 1;
          }
          depth := depth + 1;
        } else if s[i] == ')' {
          depth := depth - 1;
          if depth == 0 && start >= 0 {
            out := out + [TrimSpace(s[start..i])];
          }
        }
      }
      i := i + 1;
    }
    assert s[..i] == s;
  }

  lemma ScanNothing()
    ensures ScanRows("") == Scan(0, "", []) && !Odd("") && SplitCommas("") == [""] && TrimAll([]) == []
  {
  }

  /** The comma-separated pieces, trimmed. */
  method SplitVals(s: string) returns (out: seq<string>)
    ensures out == TrimAll(SplitCommas(s))
  {
    hide ScanRows, Odd, SplitCommas, TrimSpace, TrimAll;
    ghost var done: seq<string>, last := [], "";
    ScanNothing();
    out := [];
    var start, quote, i := 0, false, 0;
    while i < |s|
      invariant 0 <= start <= i <= |s|
      invariant quote == Odd(s[..i]) && SplitCommas(s[..i]) == done + [last]
      invariant out == TrimAll(done) && s[start..i] == last
    {
      Unfold(s, i);
      TrimAllSnoc(done, last);
      if s[i] == QUOTE && quote && i + 1 < |s| && s[i + 1] == QUOTE {
        Unfold(s, i + 1);
        last := last + [QUOTE] + [QUOTE];
        i := i + 1;
      } else {
        if s[i] == QUOTE {
          quote := !quote;
        }
        if s[i] == ',' && !quote {
          out := out + [TrimSpace(s[start..i])];
          start := i + 1;
          done, last := done + [last], "";
        } else {
          last := last + [s[i]];
        }
      }
      i := i + 1;
    }
    assert s[..i] == s && s[start..i] == s[start..];
    TrimAllSnoc(done, last);
    out := out + [TrimSpace(s[start..])];
  }

  /** Literals are parsed alike with and without the white space around them. */
  lemma {:induction false} FieldsTrim(vals: seq<string>, columns: seq<Column>)
    requires |vals| == |columns|
    ensures Fields(TrimAll(vals), columns) == Fields(vals, columns)
    decreases |columns|
  {
    if columns != [] {
      var n := |columns| - 1;
      assert TrimAll(vals)[..n] == TrimAll(vals[..n]);
      FieldsTrim(vals[..n], columns[..n]);
      ParseValTrims(vals[n], columns[n].typ);
    }
  }

  lemma {:induction false} OddSpace(s: string, w: string)
    requires AllSpace(w)
    ensures Odd(s + w) == Odd(s)
    decreases |w|
  {
    if w == "" {
      assert s + w == s;
    } else {
      assert (s + w)[..|s + w| - 1] == s + w[..|w| - 1];
      OddSpace(s, w[..|w| - 1]);
    }
  }

  /** Unquoted trailing white space only lengthens the last piece. */
  lemma {:induction false} SplitTrailingSpace(s: string, w: string)
    requires AllSpace(w)
    ensures SplitCommas(s + w) == Grow(SplitCommas(s), w)
    decreases |w|
  {
    var p := SplitCommas(s);
    if w == "" {
      assert s + w == s;
      assert p[|p| - 1] + w == p[|p| - 1];
    } else {
      var init, c := w[..|w| - 1], w[|w| - 1];
      assert (s + w)[..|s + w| - 1] == s + init;
      SplitTrailingSpace(s, init);
      assert p[|p| - 1] + w == p[|p| - 1] + init + [c];
    }
  }

  /** Leading white space only lengthens the first piece. */
  lemma {:induction false} SplitLeadingSpace(w: string, s: string)
    requires AllSpace(w)
    ensures Odd(w + s) == Odd(s)
    ensures SplitCommas(w + s) == var p := SplitCommas(s); p[0 := w + p[0]]
    decreases |s|
  {
    if s == "" {
      assert w + s == "" + w;
      OddSpace("", w);
      SplitTrailingSpace("", w);
    } else {
      var init, c := s[..|s| - 1], s[|s| - 1];
      var p := SplitCommas(init);
      assert (w + s)[..|w + s| - 1] == w + init;
      SplitLeadingSpace(w, init);
      assert w + (p[0] + [c]) == w + p[0] + [c];
    }
  }

  lemma TrimAllSame(p: seq<string>, i: nat, w: string, x: string)
    requires i < |p| && AllSpace(w) && AllSpace(x)
    ensures TrimAll(p[i := w + p[i] + x]) == TrimAll(p)
  {
    hide TrimSpace;
    TrimIgnoresEnds(w, p[i], x);
  }

  lemma SplitTrimmed(g: string)
    ensures TrimAll(SplitCommas(TrimSpace(g))) == TrimAll(SplitCommas(g))
  {
    hide SplitCommas, Odd, TrimSpace, TrimAll, Trimmed, IsSpace;
    var a, b := TrimParts(g);
    var w, mid, x := g[..a], g[a..b], g[b..];
    var p := SplitCommas(mid);
    SplitTrailingSpace(mid, x);
    assert "" + p[|p| - 1] + x == p[|p| - 1] + x;
    TrimAllSame(p, |p| - 1, "", x);
    var q := SplitCommas(mid + x);
    SplitLeadingSpace(w, mid + x);
    assert w + q[0] + "" == w + q[0];
    TrimAllSame(q, 0, w, "");
    assert g == w + (mid + x);
  }

  /** The field loop shared by both parsers. */
  method ParseFields(vals: seq<string>, columns: seq<Column>) returns (res: Result<InsertRow>)
    requires |vals| == |columns|
    ensures res == Fields(vals, columns)
  {
    var row: Row, key := map[], "";
    for i := 0 to |columns|
      invariant Fields(vals[..i], columns[..i]) == Ok(InsertRow(key, row))
    {
      assert vals[..i + 1][..i] == vals[..i] && columns[..i + 1][..i] == columns[..i];
      match ParseVal(vals[i], columns[i].typ)
      case Err(e) =>
        FieldsStop(vals, columns, i + 1);
        return Err(e);
      case Ok(v) =>
        row := row[columns[i].name := v];
        if columns[i].primary {
          key := ValueKey(v);
        }
    }
    assert vals[..|columns|] == vals && columns[..|columns|] == columns;
    return Ok(InsertRow(key, row));
  }

  lemma {:induction false} FieldsStop(vals: seq<string>, columns: seq<Column>, i: nat)
    requires |vals| == |columns| && i <= |columns| && Fields(vals[..i], columns[..i]).Err?
    ensures Fields(vals, columns) == Fields(vals[..i], columns[..i])
    decreases |columns|
  {
    var n := |columns|;
    if i < n {
      assert vals[..n - 1][..i] == vals[..i] && columns[..n - 1][..i] == columns[..i];
      FieldsStop(vals[..n - 1], columns[..n - 1], i);
    } else {
      assert vals[..i] == vals && columns[..i] == columns;
    }
  }

  /** One row of values under the key policy; `seen` holds the non-empty keys of the earlier rows. */
  method ParseRow(vals: seq<string>, columns: seq<Column>, seen: set<string>, ghost earlier: seq<InsertRow>)
    returns (res: Result<InsertRow>)
    requires forall k :: k in seen <==> k != "" && HasKey(earlier, k)
    ensures res == RowOf(vals, columns, earlier, false)
  {
    if |vals| != |columns| {
      return Err("column count mismatch");
    }
    res := ParseFields(vals, columns);
    if res.Ok? {
      var key := res.value.key;
      if key == "" && HasPrimary(columns) {
        return Err("primary key required");
      }
      if key != "" && key in seen {
        return Err("duplicate primary key");
      }
    }
  }

  lemma RowOfTrims(vals: seq<string>, columns: seq<Column>, earlier: seq<InsertRow>, keepLast: bool)
    ensures RowOf(TrimAll(vals), columns, earlier, keepLast) == RowOf(vals, columns, earlier, keepLast)
  {
    if |vals| == |columns| {
      FieldsTrim(vals, columns);
    }
  }

  method ParseTwoStage(raw: string, columns: seq<Column>) returns (res: Result<seq<InsertRow>>)
    ensures res == Meaning(raw, columns, false)
  {
    var payload := TrimSpace(raw);
    var groups := SplitRows(payload);
    ghost var rawGroups := ScanRows(payload).rows;
    if |groups| == 0 {
      return Err("INSERT requires VALUES");
    }
    hide ScanRows, SplitCommas, RowOf, TrimSpace, Odd;
    var rows: seq<InsertRow>, seen: set<string> := [], {};
    for i := 0 to |groups|
      invariant RowsOf(rawGroups[..i], columns, false) == Ok(rows)
      invariant forall k :: k in seen <==> k != "" && HasKey(rows, k)
    {
      SplitTrimmed(rawGroups[i]);
      RowOfTrims(SplitCommas(rawGroups[i]), columns, rows, false);
      NextRow(rawGroups, i, columns, false, rows);
      var vals := SplitVals(groups[i]);
      RowOfTrims(SplitCommas(groups[i]), columns, rows, false);
      var row := ParseRow(vals, columns, seen, rows);
      if row.Err? {
        return Err(row.error);
      }
      HasKeySnoc(rows, row.value);
      if row.value.key != "" {
        seen := seen + {row.value.key};
      }
      rows := rows + [row.value];
    }
    assert rawGroups[..|groups|] == rawGroups;
    return Ok(rows);
  }

  lemma HasKeySnoc(rows: seq<InsertRow>, r: InsertRow)
    ensures forall k :: HasKey(rows + [r], k) <==> HasKey(rows, k) || k == r.key
  {
    var more := rows + [r];
    assert more[|rows|] == r;
    forall k | HasKey(rows, k)
      ensures HasKey(more, k)
    {
      var i :| 0 <= i < |rows| && rows[i].key == k;
      assert more[i].key == k;
    }
  }

  // ------------------------------------------------------------- single pass

  datatype Span = Span(start: nat, end: nat)

  predicate SpansFit(payload: string, spans: seq<Span>) {
    forall i :: 0 <= i < |spans| ==> spans[i].start <= spans[i].end <= |payload|
  }

  function Cut(payload: string, spans: seq<Span>): (pieces: seq<string>)
    requires SpansFit(payload, spans)
    ensures |pieces| == |spans| && forall i :: 0 <= i < |pieces| ==> pieces[i] == payload[spans[i].start..spans[i].end]
  {
    seq(|spans|, i requires 0 <= i < |spans| => payload[spans[i].start..spans[i].end])
  }

  /** The lazily built duplicate set agrees with the rows so far. */
  ghost predicate SeenOK(seen: Option<set<string>>, rows: seq<InsertRow>, keepLast: bool) {
    seen.Some? ==> !keepLast && |rows| >= 1 && forall k :: k != "" ==> (k in seen.value <==> HasKey(rows, k))
  }

  /** Closing a row: the duplicate set is only built once a second keyed row arrives. */
  method FlushRow(vals: seq<string>, columns: seq<Column>, keepLast: bool, rows: seq<InsertRow>,
                  seen: Option<set<string>>)
    returns (res: Result<InsertRow>, seen': Option<set<string>>)
    requires SeenOK(seen, rows, keepLast)
    ensures res == RowOf(vals, columns, rows, keepLast)
    ensures res.Ok? ==> SeenOK(seen', rows + [res.value], keepLast)
  {
    seen' := seen;
    if |vals| != |columns| {
      return Err("column count mismatch"), seen';
    }
    res := ParseFields(vals, columns);
    if res.Err? {
      return;
    }
    var key := res.value.key;
    if key == "" && HasPrimary(columns) {
      return Err("primary key required"), seen';
    }
    HasKeySnoc(rows, res.value);
    if key != "" && |rows| >= 1 && !keepLast {
      if seen'.None? {
        seen' := Some(set r | r in rows :: r.key);
        KeysOfRows(rows);
      }
      if key in seen'.value {
        return Err("duplicate primary key"), seen';
      }
      seen' := Some(seen'.value + {key});
    }
  }

  lemma KeysOfRows(rows: seq<InsertRow>)
    ensures forall k :: k in (set r | r in rows :: r.key) <==> HasKey(rows, k)
  {
    forall k | HasKey(rows, k)
      ensures exists r :: r in rows && r.key == k
    {
      var i :| 0 <= i < |rows| && rows[i].key == k;
      assert rows[i] in rows;
    }
  }

  /** Inside a row: its text so far, quoted or not at the end, is cut at the commas by the spans. */
  ghost predicate InRow(payload: string, i: nat, current: string, spans: seq<Span>, rowStart: int, valStart: int,
                        quote: bool) {
    && 0 <= rowStart <= valStart <= i <= |payload| && SpansFit(payload, spans)
    && payload[rowStart..i] == current && Odd(current) == quote
    && SplitCommas(current) == Cut(payload, spans) + [payload[valStart..i]]
  }

  lemma RowOpens(payload: string, i: nat)
    requires i <= |payload|
    ensures InRow(payload, i, "", [], i, i, false)
  {
  }

  lemma RowContinues(payload: string, i: nat, current: string, spans: seq<Span>, rowStart: int, valStart: int,
                     quote: bool)
    requires InRow(payload, i, current, spans, rowStart, valStart, quote) && i < |payload|
    requires payload[i] != ',' || quote
    ensures InRow(payload, i + 1, current + [payload[i]], spans, rowStart, valStart, quote != (payload[i] == QUOTE))
  {
    hide Odd, SplitCommas, Cut;
    PieceStep(current, payload[i]);
    assert payload[rowStart..i + 1] == payload[rowStart..i] + [payload[i]];
    assert payload[valStart..i + 1] == payload[valStart..i] + [payload[i]];
  }

  lemma RowSplits(payload: string, i: nat, current: string, spans: seq<Span>, rowStart: int, valStart: int)
    requires InRow(payload, i, current, spans, rowStart, valStart, false) && i < |payload| && payload[i] == ','
    ensures InRow(payload, i + 1, current + [payload[i]], spans + [Span(valStart, i)], rowStart, i + 1, false)
  {
    hide Odd, SplitCommas, Cut;
    RowCloses(payload, i, current, spans, rowStart, valStart, false);
    PieceStep(current, payload[i]);
    assert payload[rowStart..i + 1] == payload[rowStart..i] + [payload[i]];
    assert payload[i + 1..i + 1] == "";
  }

  lemma RowCloses(payload: string, i: nat, current: string, spans: seq<Span>, rowStart: int, valStart: int, quote: bool)
    requires InRow(payload, i, current, spans, rowStart, valStart, quote)
    ensures SpansFit(payload, spans + [Span(valStart, i)])
    ensures Cut(payload, spans + [Span(valStart, i)]) == SplitCommas(current)
  {
  }

  /** The row that a closing parenthesis completes is the next group of the whole payload. */
  lemma RowIsNext(payload: string, i: nat, before: Scan, groups: seq<string>)
    requires i < |payload| && before == ScanRows(payload[..i]) && groups == ScanRows(payload).rows
    ensures before.rows <= groups
    ensures payload[i] == ')' && !Odd(payload[..i]) && before.depth == 1 ==>
              |before.rows| < |groups| && groups[|before.rows|] == before.current
                && groups[..|before.rows|] == before.rows
              && groups[..|before.rows| + 1] == before.rows + [before.current]
  {
    hide ScanRows, Odd, SplitCommas;
    RowsGrow(payload, i);
    RowsGrow(payload, i + 1);
    Unfold(payload, i);
    if payload[i] == ')' && !Odd(payload[..i]) && before.depth == 1 {
      assert ScanRows(payload[..i + 1]).rows == before.rows + [before.current];
    }
  }

  /** The lexical state of the single pass before position `i`. */
  ghost predicate At(payload: string, i: nat, quote: bool, depth: int, spans: seq<Span>, rowStart: int, valStart: int,
                     at: Scan) {
    && i <= |payload| && quote == Odd(payload[..i]) && at == ScanRows(payload[..i]) && depth == at.depth
    && (depth >= 1 ==> 0 <= rowStart && InRow(payload, i, at.current, spans, rowStart, valStart, quote))
  }

  /** A character that neither opens, splits nor closes a row: only depth and quoting can change. */
  lemma Plain(payload: string, i: nat, quote: bool, depth: int, spans: seq<Span>, rowStart: int, valStart: int,
              at: Scan)
    requires At(payload, i, quote, depth, spans, rowStart, valStart, at) && i < |payload|
    requires var c := payload[i];
             quote || (!(c == '(' && depth == 0) && !(c == ')' && depth == 1) && !(c == ',' && depth >= 1))
    ensures var c := payload[i];
            var shift := if quote then 0 else if c == '(' then 1 else if c == ')' then -1 else 0;
            At(payload, i + 1, quote != (c == QUOTE), depth + shift, spans, rowStart, valStart, ScanChar(at, quote, c))
            && ScanChar(at, quote, c).rows == at.rows
  {
    Unfold(payload, i);
    if depth >= 1 {
      RowContinues(payload, i, at.current, spans, rowStart, valStart, quote);
    }
  }

  lemma QuoteStep(payload: string, i: nat, quote: bool, depth: int, spans: seq<Span>, rowStart: int, valStart: int,
                  at: Scan)
    requires At(payload, i, quote, depth, spans, rowStart, valStart, at) && i < |payload|
             && (quote || payload[i] == QUOTE)
    ensures At(payload, i + 1, quote != (payload[i] == QUOTE), depth, spans, rowStart, valStart,
               ScanChar(at, quote, payload[i]))
    ensures ScanChar(at, quote, payload[i]).rows == at.rows
  {
    Plain(payload, i, quote, depth, spans, rowStart, valStart, at);
  }

  lemma AtEnd(payload: string, i: nat, quote: bool, depth: int, spans: seq<Span>, rowStart: int, valStart: int,
              at: Scan)
    requires At(payload, i, quote, depth, spans, rowStart, valStart, at) && i == |payload|
    ensures at == ScanRows(payload)
  {
    assert payload[..i] == payload;
  }

  lemma Opens(payload: string, i: nat, spans: seq<Span>, rowStart: int, valStart: int, at: Scan)
    requires At(payload, i, false, 0, spans, rowStart, valStart, at) && i < |payload| && payload[i] == '('
    ensures At(payload, i + 1, false, 1, [], i + 1, i + 1, Scan(1, "", at.rows))
  {
    Unfold(payload, i);
    RowOpens(payload, i + 1);
  }

  lemma Splits(payload: string, i: nat, depth: int, spans: seq<Span>, rowStart: int, valStart: int, at: Scan)
    requires At(payload, i, false, depth, spans, rowStart, valStart, at) && i < |payload| && payload[i] == ','
             && depth >= 1
    ensures valStart >= 0
            && At(payload, i + 1, false, depth, spans + [Span(valStart, i)], rowStart, i + 1,
                  at.(current := at.current + [',']))
  {
    Unfold(payload, i);
    RowSplits(payload, i, at.current, spans, rowStart, valStart);
  }

  lemma Closes(payload: string, i: nat, spans: seq<Span>, rowStart: int, valStart: int, at: Scan)
    requires At(payload, i, false, 1, spans, rowStart, valStart, at) && i < |payload| && payload[i] == ')'
    ensures 0 <= valStart <= i && SpansFit(payload, spans + [Span(valStart, i)])
    ensures Cut(payload, spans + [Span(valStart, i)]) == SplitCommas(at.current)
    ensures At(payload, i + 1, false, 0, spans + [Span(valStart, i)], -1, valStart,
               Scan(0, at.current + [')'], at.rows + [at.current]))
    ensures var groups := ScanRows(payload).rows;
            var n := |at.rows|;
            n < |groups| && groups[n] == at.current && groups[..n] == at.rows
              && groups[..n + 1] == at.rows + [at.current]
  {
    Unfold(payload, i);
    RowCloses(payload, i, at.current, spans, rowStart, valStart, false);
    RowIsNext(payload, i, at, ScanRows(payload).rows);
  }

  lemma StartOfPass(raw: string, columns: seq<Column>, keepLast: bool)
    ensures At(TrimSpace(raw), 0, false, 0, [], -1, -1, Scan(0, "", []))
    ensures RowsOf([], columns, keepLast) == Ok([]) && SeenOK(None, [], keepLast)
    ensures var groups := ScanRows(TrimSpace(raw)).rows;
            Meaning(raw, columns, keepLast)
            == if groups == [] then Err("INSERT requires VALUES") else RowsOf(groups, columns, keepLast)
  {
    assert TrimSpace(raw)[..0] == "";
  }

  /** Bookkeeping for one unquoted character other than a quote; `closed` reports a completed row,
      whose spans are then complete. */
  method Structure(payload: string, i: nat, d: int, sp: seq<Span>, rs: int, vs: int, ghost at: Scan)
    returns (depth: int, spans: seq<Span>, rowStart: int, valStart: int, closed: bool, ghost next: Scan)
    requires i < |payload| && At(payload, i, false, d, sp, rs, vs, at) && payload[i] != QUOTE
    requires d >= 1 ==> rs >= 0
    ensures At(payload, i + 1, false, depth, spans, rowStart, valStart, next) && (depth >= 1 ==> rowStart >= 0)
    ensures !closed ==> next.rows == at.rows
    ensures closed ==>
              && SpansFit(payload, spans) && Cut(payload, spans) == SplitCommas(at.current)
              && next.rows == at.rows + [at.current]
    ensures closed ==> var groups := ScanRows(payload).rows;
                       var n := |at.rows|;
                       n < |groups| && groups[n] == at.current && groups[..n] == at.rows && groups[..n + 1] == next.rows
  {
    hide *;
    depth, spans, rowStart, valStart, closed := d, sp, rs, vs, false;
    if payload[i] == '(' {
      if depth == 0 {
        Opens(payload, i, sp, rs, vs, at);
        next := Scan(1, "", at.rows);
        rowStart, valStart, spans := i + 1, i + 1, [];
      } else {
        Plain(payload, i, false, d, sp, rs, vs, at);
        next := ScanChar(at, false, payload[i]);
      }
      depth := depth + 1;
    } else if payload[i] == ')' {
      depth := depth - 1;
      if depth == 0 && rowStart >= 0 {
        Closes(payload, i, sp, rs, vs, at);
        next := Scan(0, at.current + [')'], at.rows + [at.current]);
        spans := spans + [Span(valStart, i)];
        rowStart := -1;
        closed := true;
      } else {
        Plain(payload, i, false, d, sp, rs, vs, at);
        next := ScanChar(at, false, payload[i]);
      }
    } else if payload[i] == ',' && rowStart >= 0 && depth >= 1 {
      Splits(payload, i, d, sp, rs, vs, at);
      next := at.(current := at.current + [',']);
      spans := spans + [Span(valStart, i)];
      valStart := i + 1;
    } else {
      Plain(payload, i, false, d, sp, rs, vs, at);
      next := ScanChar(at, false, payload[i]);
    }
  }

  /** The production parser: one loop over the payload, no intermediate strings. */
  method ParseSinglePass(raw: string, columns: seq<Column>, keepLast: bool) returns (res: Result<seq<InsertRow>>)
    ensures res == Meaning(raw, columns, keepLast)
  {
    hide *;
    StartOfPass(raw, columns, keepLast);
    var payload := TrimSpace(raw);
    ghost var groups := ScanRows(payload).rows;
    var rows: seq<InsertRow>, seen: Option<set<string>>, spans: seq<Span> := [], None, [];
    var depth, rowStart, valStart, quote, i := 0, -1, -1, false, 0;
    ghost var at := Scan(0, "", []);
    while i < |payload|
      invariant 0 <= i <= |payload| && At(payload, i, quote, depth, spans, rowStart, valStart, at)
                && (depth >= 1 ==> rowStart >= 0)
      invariant RowsOf(at.rows, columns, keepLast) == Ok(rows) && |rows| == |at.rows| && SeenOK(seen, rows, keepLast)
    {
      if payload[i] == QUOTE || quote {
        QuoteStep(payload, i, quote, depth, spans, rowStart, valStart, at);
        at := ScanChar(at, quote, payload[i]);
        if payload[i] == QUOTE {
          if quote && i + 1 < |payload| && payload[i + 1] == QUOTE {
            QuoteStep(payload, i + 1, false, depth, spans, rowStart, valStart, at);
            at := ScanChar(at, false, QUOTE);
            i := i + 1;
          } else {
            quote := !quote;
          }
        }
      } else {
        ghost var before := at;
        var closed;
        depth, spans, rowStart, valStart, closed, at := Structure(payload, i, depth, spans, rowStart, valStart, at);
        if closed {
          NextRow(groups, |before.rows|, columns, keepLast, rows);
          var r, more := FlushRow(Cut(payload, spans), columns, keepLast, rows, seen);
          if r.Err? {
            return Err(r.error);
          }
          rows, seen := rows + [r.value], more;
        }
      }
      i := i + 1;
    }
    AtEnd(payload, i, quote, depth, spans, rowStart, valStart, at);
    if |rows| == 0 {
      return Err("INSERT requires VALUES");
    }
    return Ok(rows);
  }

  /** One more character of a row's text. */
  lemma PieceStep(s: string, c: char)
    ensures Odd(s + [c]) == (Odd(s) != (c == QUOTE))
    ensures SplitCommas(s + [c]) == if c == ',' && !Odd(s) then SplitCommas(s) + [""] else Grow(SplitCommas(s), [c])
  {
    assert (s + [c])[..|s|] == s;
  }
}
