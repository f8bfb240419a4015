/** Compiled WHERE conditions (internal/engine/parser.go): groups of terms, evaluated on a row map or
    on the positional values of the fast array. */
module Conditions {
  import opened Values
  import opened Storage
  import Like

  datatype Op = Eq | Ne | Lt | Le | Gt | Ge

  datatype Term =
    | Compare(column: string, op: Op, expected: Value)
    | In(column: string, list: seq<Value>)
    | Between(column: string, lo: Value, hi: Value)
    | LikePattern(column: string, pattern: string)

  /** A disjunction of conjunctions. */
  type Condition = seq<seq<Term>>

  predicate OrderedCompare(actual: Value, expected: Value, op: Op) {
    match op
    case Lt => ValueLess(actual, expected)
    case Le => !ValueLess(expected, actual)
    case Gt => ValueLess(expected, actual)
    case Ge => !ValueLess(actual, expected)
    case _ => false
  }

  /** conditionValueCompare: equality never holds across types, LIKE only on text. */
  predicate TermHolds(actual: Value, term: Term) {
    match term
    case Compare(_, Eq, e) => actual == e
    case Compare(_, Ne, e) => actual != e
    case Compare(_, op, e) => OrderedCompare(actual, e, op)
    case In(_, list) => actual in list
    case Between(_, lo, hi) => OrderedCompare(actual, lo, Ge) && OrderedCompare(actual, hi, Le)
    case LikePattern(_, p) => actual.Text? && Like.LikeCode(p, actual.s)
  }

  predicate GroupHolds(row: Row, group: seq<Term>) {
    forall i :: 0 <= i < |group| ==> TermHolds(Get(row, group[i].column), group[i])
  }

  /** What a condition means for a row. */
  predicate Satisfies(row: Row, cond: Condition) {
    exists i :: 0 <= i < |cond| && GroupHolds(row, cond[i])
  }

  /** Every term names a column of the table; the compiler rejects anything else. */
  ghost predicate Compiled(cond: Condition, columns: seq<Column>) {
    forall i, j :: 0 <= i < |cond| && 0 <= j < |cond[i]| ==> HasColumn(columns, cond[i][j].column)
  }

  // ------------------------------------------------------------ plain terms

  /** What a term asks of a value, in plain terms: comparisons of numbers, truth values and texts as they are,
      membership by place in the list, both bounds of a BETWEEN. */
  ghost predicate Meets(v: Value, term: Term) {
    match term
    case Compare(_, Eq, e) => v == e
    case Compare(_, Ne, e) => !(v == e)
    case Compare(_, Lt, e) => AtMost(v, e) && !AtMost(e, v)
    case Compare(_, Le, e) => AtMost(v, e)
    case Compare(_, Gt, e) => AtMost(e, v) && !AtMost(v, e)
    case Compare(_, Ge, e) => AtMost(e, v)
    case In(_, list) => exists i :: 0 <= i < |list| && list[i] == v
    case Between(_, lo, hi) => AtMost(lo, v) && AtMost(v, hi)
    case LikePattern(_, p) => v.Text? && Like.LikeCode(p, v.s)
  }

  ghost predicate MeetsAll(row: Row, group: seq<Term>) {
    forall j :: 0 <= j < |group| ==> Meets(Get(row, group[j].column), group[j])
  }

  /** Some group has all its terms met. */
  ghost predicate Selects(row: Row, cond: Condition) { exists i :: 0 <= i < |cond| && MeetsAll(row, cond[i]) }

  lemma TermMeets(v: Value, term: Term)
    ensures TermHolds(v, term) <==> Meets(v, term)
  {
    hide ValueLess, AtMost, Like.LikeCode;
    match term
    case Compare(_, _, e) =>
      OrderIs(v, e);
      OrderIs(e, v);
    case Between(_, lo, hi) =>
      OrderIs(v, lo);
      OrderIs(hi, v);
    case _ =>
  }

  lemma SatisfiesIs(row: Row, cond: Condition)
    ensures Satisfies(row, cond) <==> Selects(row, cond)
  {
    hide TermHolds, Meets;
    forall i | 0 <= i < |cond| ensures GroupHolds(row, cond[i]) <==> MeetsAll(row, cond[i]) {
      var group := cond[i];
      forall j | 0 <= j < |group|
        ensures TermHolds(Get(row, group[j].column), group[j]) <==> Meets(Get(row, group[j].column), group[j])
      {
        TermMeets(Get(row, group[j].column), group[j]);
      }
    }
  }

  /** On integers the operators are those of the numbers. */
  lemma IntTerms(n: int, a: int, b: int, column: string)
    ensures TermHolds(Int(n), Compare(column, Eq, Int(a))) <==> n == a
    ensures TermHolds(Int(n), Compare(column, Ne, Int(a))) <==> n != a
    ensures TermHolds(Int(n), Compare(column, Lt, Int(a))) <==> n < a
    ensures TermHolds(Int(n), Compare(column, Le, Int(a))) <==> n <= a
    ensures TermHolds(Int(n), Compare(column, Gt, Int(a))) <==> n > a
    ensures TermHolds(Int(n), Compare(column, Ge, Int(a))) <==> n >= a
    ensures TermHolds(Int(n), Between(column, Int(a), Int(b))) <==> a <= n <= b
  {
  }

  /** Of `<` and `>=`, `<=` and `>`, `=` and `<>` exactly one holds of any value, NULL included, and BETWEEN is
      its two comparisons. */
  lemma Complements(v: Value, e: Value, f: Value, column: string)
    ensures TermHolds(v, Compare(column, Lt, e)) != TermHolds(v, Compare(column, Ge, e))
    ensures TermHolds(v, Compare(column, Le, e)) != TermHolds(v, Compare(column, Gt, e))
    ensures TermHolds(v, Compare(column, Eq, e)) != TermHolds(v, Compare(column, Ne, e))
    ensures TermHolds(v, Between(column, e, f)) <==>
            TermHolds(v, Compare(column, Ge, e)) && TermHolds(v, Compare(column, Le, f))
  {
    hide ValueLess;
  }

  method MatchesMap(row: Row, cond: Condition) returns (found: bool)
    ensures found == Satisfies(row, cond)
    ensures found <==> Selects(row, cond)
  {
    SatisfiesIs(row, cond);
    hide TermHolds, Meets, Selects;
    for i := 0 to |cond|
      invariant forall h :: 0 <= h < i ==> !GroupHolds(row, cond[h])
    {
      var group, matches := cond[i], true;
      for j := 0 to |group|
        invariant matches && forall h :: 0 <= h < j ==> TermHolds(Get(row, group[h].column), group[h])
      {
        if !TermHolds(Get(row, group[j].column), group[j]) {
          matches := false;
          break;
        }
      }
      if matches {
        return true;
      }
    }
    return false;
  }

  /** On the projection of a row the positional evaluation agrees with the one on the row. */
  method MatchesFast(values: seq<Value>, colPos: map<string, nat>, cond: Condition, ghost columns: seq<Column>,
                     ghost row: Row) returns (found: bool)
    requires PositionsFit(columns, colPos) && values == Project(columns, row) && Compiled(cond, columns)
    ensures found == Satisfies(row, cond)
    ensures found <==> Selects(row, cond)
  {
    SatisfiesIs(row, cond);
    hide TermHolds, HasColumn, PositionsFit, Project, Meets, Selects;
    for i := 0 to |cond|
      invariant forall h :: 0 <= h < i ==> !GroupHolds(row, cond[h])
    {
      var group, matches := cond[i], true;
      for j := 0 to |group|
        invariant matches && forall h :: 0 <= h < j ==> TermHolds(Get(row, group[h].column), group[h])
      {
        PositionOf(columns, colPos, group[j].column, row);
        if group[j].column !in colPos || !TermHolds(values[colPos[group[j].column]], group[j]) {
          matches := false;
          break;
        }
      }
      if matches {
        return true;
      }
    }
    return false;
  }

  lemma PositionOf(columns: seq<Column>, colPos: map<string, nat>, column: string, row: Row)
    requires PositionsFit(columns, colPos) && HasColumn(columns, column)
    ensures column in colPos && colPos[column] < |columns| && Project(columns, row)[colPos[column]] == Get(row, column)
  {
  }

  // ------------------------------------------------------ bare equality terms

  datatype Kind = Generic | OnInt | OnText | OnBool

  /** A bare `column = value`, its column position resolved once. */
  datatype FastTerm = FastTerm(index: nat, expected: Value, kind: Kind)

  function KindFor(typ: Type, expected: Value): Kind {
    match (typ, expected)
    case (IntType, Int(_)) => OnInt
    case (TextType, Text(_)) => OnText
    case (BoolType, Bool(_)) => OnBool
    case _ => Generic
  }

  ghost predicate TermFits(term: FastTerm, columns: seq<Column>, column: string) {
    && term.index < |columns| && columns[term.index].name == column
    && term.kind == KindFor(columns[term.index].typ, term.expected)
  }

  predicate MatchFastTerm(values: seq<Value>, term: FastTerm)
    requires term.index < |values|
    requires (term.kind.OnInt? ==> term.expected.Int?) && (term.kind.OnText? ==> term.expected.Text?)
             && (term.kind.OnBool? ==> term.expected.Bool?)
  {
    var v := values[term.index];
    match term.kind
    case OnInt => v.Int? && v.n == term.expected.n
    case OnText => v.Text? && v.s == term.expected.s
    case OnBool => v.Bool? && v.b == term.expected.b
    case Generic => v == term.expected
  }

  /** Every specialised comparison is the compiled equality. */
  lemma FastTermIs(columns: seq<Column>, row: Row, term: FastTerm, column: string)
    requires TermFits(term, columns, column)
    ensures MatchFastTerm(Project(columns, row), term) <==> Satisfies(row, [[Compare(column, Eq, term.expected)]])
  {
    var cond := [[Compare(column, Eq, term.expected)]];
    assert cond[0] == [Compare(column, Eq, term.expected)];
    if Get(row, column) == term.expected {
      assert GroupHolds(row, cond[0]);
    } else {
      assert !TermHolds(Get(row, cond[0][0].column), cond[0][0]);
    }
  }
}
