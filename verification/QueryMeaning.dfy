// What a query keeps, and in which order.
module QueryMeaning {
  import opened Results
  import opened QueryLexer
  import opened QueryParser
  import opened StableSort
  import opened QueryExecutor

  // ---- WHERE ------------------------------------------------------------------------------------

  /** `SELECT * FROM t WHERE e` */
  function Selection(e: Expr): Query {
    Query(["*"], "t", Some(e), None, None)
  }

  function Selected(js: Js, e: Expr, rows: seq<Row>): Result<seq<Row>, QueryError> {
    Execution(js, Selection(e), rows)
  }

  lemma SelectedIsFiltered(js: Js, e: Expr, rows: seq<Row>)
    ensures Selected(js, e, rows) == Ok(Filter(Holds(js, e), rows))
  {}

  lemma {:induction false} FilterHas<T>(p: T -> bool, s: seq<T>, x: T)
    ensures x in Filter(p, s) <==> x in s && p(x)
  {
    if s != [] {
      FilterHas(p, s[1..], x);
      assert s == [s[0]] + s[1..];
    }
  }

  /** Filters that agree on the rows there are. */
  lemma {:induction false} SameFilter<T>(p: T -> bool, q: T -> bool, s: seq<T>)
    requires forall x <- s :: p(x) == q(x)
    ensures Filter(p, s) == Filter(q, s)
  {
    if s != [] { SameFilter(p, q, s[1..]); }
  }

  /** WHERE l AND r keeps the rows that both keep, WHERE l OR r those that either keeps, in input order,
      whatever else the query says. */
  lemma AndOrMean(js: Js, l: Expr, r: Expr, q: Query, rows: seq<Row>)
    ensures Selected(js, l, rows).Ok? && Selected(js, r, rows).Ok?
    ensures var left, right := Selected(js, l, rows).value, Selected(js, r, rows).value;
      var both, either := Filter((row: Row) => row in left && row in right, rows), Filter((row: Row) => row in left || row in right, rows);
      && Selected(js, AndExpr(l, r), rows) == Ok(both)
      && Selected(js, OrExpr(l, r), rows) == Ok(either)
      && Execution(js, q.(filter := Some(AndExpr(l, r))), rows) == Execution(js, q.(filter := None), both)
      && Execution(js, q.(filter := Some(OrExpr(l, r))), rows) == Execution(js, q.(filter := None), either)
  {
    hide Project, InOrder, Limited;
    SelectedIsFiltered(js, l, rows);
    SelectedIsFiltered(js, r, rows);
    SelectedIsFiltered(js, AndExpr(l, r), rows);
    SelectedIsFiltered(js, OrExpr(l, r), rows);
    var left, right := Selected(js, l, rows).value, Selected(js, r, rows).value;
    forall row | row in rows
      ensures row in left <==> Evaluate(js, l, row)
      ensures row in right <==> Evaluate(js, r, row)
    {
      FilterHas(Holds(js, l), rows, row);
      FilterHas(Holds(js, r), rows, row);
    }
    SameFilter(Holds(js, AndExpr(l, r)), (row: Row) => row in left && row in right, rows);
    SameFilter(Holds(js, OrExpr(l, r)), (row: Row) => row in left || row in right, rows);
    WithoutFilter(js, q, AndExpr(l, r), rows);
    WithoutFilter(js, q, OrExpr(l, r), rows);
  }

  /** Whatever else it says, a query with WHERE is that query without it on the rows selected. */
  lemma WithoutFilter(js: Js, q: Query, e: Expr, rows: seq<Row>)
    ensures Selected(js, e, rows).Ok?
    ensures Execution(js, q.(filter := Some(e)), rows) == Execution(js, q.(filter := None), Selected(js, e, rows).value)
  {
    hide Project, InOrder, Limited, Evaluate;
    SelectedIsFiltered(js, e, rows);
    var kept := Filter(Holds(js, e), rows);
    assert Filtered(js, q.(filter := Some(e)), rows) == kept && Filtered(js, q.(filter := None), kept) == kept;
    SameTail(js, q, Some(e), kept);
  }

  lemma SameTail(js: Js, q: Query, filter: Option<Expr>, rows: seq<Row>)
    ensures InOrder(js, q.(filter := filter), rows) == InOrder(js, q.(filter := None), rows)
    ensures Limited(q.(filter := filter), rows) == Limited(q.(filter := None), rows)
    ensures forall s :: Limited(q.(filter := filter), s) == Limited(q.(filter := None), s)
  {}

  // ---- one comparison --------------------------------------------------------------------------------

  /** The two numbers that are compared: a number is one of the two sides, and the other is a number or
      a text that reads as one. */
  function AsNumbers(js: Js, v: Value, literal: Literal): Option<(real, real)> {
    match (v, literal)
    case (Num(x), NumberLit(n)) => Some((x, n as real))
    case (Str(s), NumberLit(n)) => if js.toNumber(s).Some? then Some((js.toNumber(s).value, n as real)) else None
    case (Num(x), TextLit(t)) => if js.toNumber(t).Some? then Some((x, js.toNumber(t).value)) else None
    case _ => None
  }

  predicate AreTexts(v: Value, literal: Literal) { v.Str? && literal.TextLit? }

  /** One text comes before another: it is a proper beginning of it, or smaller where they first differ. */
  ghost predicate Before(a: string, b: string) {
    exists i: nat :: BeforeAt(a, b, i)
  }

  predicate BeforeAt(a: string, b: string, i: nat) {
    i <= |a| && i < |b| && a[..i] == b[..i] && (i == |a| || a[i] < b[i])
  }

  lemma {:induction false} BeforeIsLess(a: string, b: string)
    ensures StringLess(a, b) <==> Before(a, b)
  {
    if a != "" && b != "" && a[0] == b[0] {
      BeforeIsLess(a[1..], b[1..]);
      if i: nat :| BeforeAt(a, b, i) {
        assert a[1..][..i - 1] == a[..i][1..] && b[1..][..i - 1] == b[..i][1..];
        assert BeforeAt(a[1..], b[1..], i - 1);
      }
      if i: nat :| BeforeAt(a[1..], b[1..], i) {
        assert a[..i + 1] == [a[0]] + a[1..][..i] && b[..i + 1] == [b[0]] + b[1..][..i];
        assert BeforeAt(a, b, i + 1);
      }
    } else {
      DifferAtOnce(a, b);
    }
  }

  lemma DifferAtOnce(a: string, b: string)
    requires a == "" || b == "" || a[0] != b[0]
    ensures Before(a, b) <==> b != "" && (a == "" || a[0] < b[0])
  {
    assert a[..0] == b[..0];
    if b != "" && (a == "" || a[0] < b[0]) { assert BeforeAt(a, b, 0); }
  }

  /** Which values `column op literal` keeps. Null is kept by nothing, and by a comparison with null only
      `!=` keeps anything. Numbers, and texts against numbers they read as, compare by value; texts
      compare by code units; anything else is only ever unequal. */
  lemma LeafMeans(js: Js, column: string, literal: Literal, row: Row)
    ensures var v := if column in row then row[column] else Undefined;
      var keeps := (op: CmpOp) => Evaluate(js, Compare(column, op, literal), row);
      if v == Null || literal == NullLit then forall op :: keeps(op) <==> op == Ne && v != Null
      else if AsNumbers(js, v, literal).Some? then
        var (x, y) := AsNumbers(js, v, literal).value;
        && (keeps(Lt) <==> x < y) && (keeps(Le) <==> x <= y) && (keeps(Gt) <==> x > y) && (keeps(Ge) <==> x >= y)
        && (keeps(Eq) <==> x == y) && (keeps(Ne) <==> x != y)
      else if AreTexts(v, literal) then
        && (keeps(Lt) <==> Before(v.s, literal.s)) && (keeps(Gt) <==> Before(literal.s, v.s))
        && (keeps(Le) <==> v.s == literal.s || Before(v.s, literal.s)) && (keeps(Ge) <==> v.s == literal.s || Before(literal.s, v.s))
        && (keeps(Eq) <==> v.s == literal.s) && (keeps(Ne) <==> v.s != literal.s)
      else forall op :: keeps(op) <==> op == Ne
  {
    hide StringLess, Before;
    var v := Lookup(row, column);
    if AreTexts(v, literal) {
      BeforeIsLess(v.s, literal.s);
      BeforeIsLess(literal.s, v.s);
      StringTrichotomy(v.s, literal.s);
    }
  }

  /** And the rows selected are those, in input order. */
  lemma SelectionMeans(js: Js, e: Expr, rows: seq<Row>)
    ensures Selected(js, e, rows).Ok?
    ensures forall row :: row in Selected(js, e, rows).value <==> row in rows && Evaluate(js, e, row)
    ensures Selected(js, e, rows).value == Filter((row: Row) => row in Selected(js, e, rows).value, rows)
  {
    SelectedIsFiltered(js, e, rows);
    forall row ensures row in Selected(js, e, rows).value <==> row in rows && Evaluate(js, e, row) {
      FilterHas(Holds(js, e), rows, row);
    }
    SameFilter(Holds(js, e), (row: Row) => row in Selected(js, e, rows).value, rows);
  }

  // ---- ORDER BY ----------------------------------------------------------------------------------------

  /** One value may stand in front of another: nulls last in both directions; numbers by value and all
      else by its text, upwards or downwards as asked. */
  predicate MayPrecede(js: Js, a: Value, b: Value, direction: Direction) {
    if b == Null then true
    else if a == Null then false
    else if NumberOf(js, a).Some? && NumberOf(js, b).Some? then
      if direction == Ascending then NumberOf(js, a).value <= NumberOf(js, b).value else NumberOf(js, a).value >= NumberOf(js, b).value
    else
      if direction == Ascending then js.collate(TextOf(js, a), TextOf(js, b)) <= 0 else js.collate(TextOf(js, a), TextOf(js, b)) >= 0
  }

  /** A row without the column stands where the text "undefined" does. */
  lemma MissingIsUndefined(js: Js, row: Row, other: Row, orderBy: OrderBy)
    requires orderBy.column !in row && Lookup(other, orderBy.column).Str?
    requires js.toNumber(Lookup(other, orderBy.column).s).None?
    ensures var c := js.collate("undefined", Lookup(other, orderBy.column).s);
      RowOrder(js, orderBy)(row, other) == if orderBy.direction == Descending then -c else c
  {}

  lemma MayPrecedeIsOrder(js: Js, a: Value, b: Value, direction: Direction)
    ensures CompareValues(js, a, b, direction) <= 0 <==> MayPrecede(js, a, b, direction)
  {}

  /** On an orderable column the rows of a query come out with each value where it may stand, and rows
      that may stand either way in the order they had. */
  lemma RowsInOrder(js: Js, orderBy: OrderBy, rows: seq<Row>)
    requires js.Collates() && Orderable(js, orderBy.column, RowsOf(rows))
    ensures var q := Query(["*"], "t", None, Some(orderBy), None);
      Execution(js, q, rows).Ok?
      && var r := Execution(js, q, rows).value;
         && multiset(r) == multiset(rows)
         && (forall i, j :: 0 <= i < j < |r| ==>
               MayPrecede(js, Lookup(r[i], orderBy.column), Lookup(r[j], orderBy.column), orderBy.direction))
         && forall x <- rows :: TiedWith(js, orderBy, r, x) == TiedWith(js, orderBy, rows, x)
  {
    hide MayPrecede, CompareValues, TiedWith, Lookup, Orderable, Sorted;
    var q := Query(["*"], "t", None, Some(orderBy), None);
    var cmp, r := RowOrder(js, orderBy), Sorted(RowOrder(js, orderBy), rows);
    assert Execution(js, q, rows) == Ok(r);
    OrderByMeans(js, orderBy, rows, r);
    forall i, j | 0 <= i < j < |r|
      ensures MayPrecede(js, Lookup(r[i], orderBy.column), Lookup(r[j], orderBy.column), orderBy.direction)
    {
      MayPrecedeIsOrder(js, Lookup(r[i], orderBy.column), Lookup(r[j], orderBy.column), orderBy.direction);
    }
    forall x | x in rows ensures TiedWith(js, orderBy, r, x) == TiedWith(js, orderBy, rows, x) {
      SameTiesAsked(js, orderBy, rows, r, x);
    }
  }

  lemma SameTiesAsked(js: Js, orderBy: OrderBy, rows: seq<Row>, r: seq<Row>, x: Row)
    requires js.Collates() && Orderable(js, orderBy.column, RowsOf(rows)) && x in rows
    requires SameTies(RowOrder(js, orderBy), RowsOf(rows), r, rows) && multiset(r) == multiset(rows)
    ensures TiedWith(js, orderBy, r, x) == TiedWith(js, orderBy, rows, x)
  {
    hide CompareValues, TiedWith, Lookup, Orderable;
    SameElements(r, rows);
    RowOrderPreorders(js, orderBy, RowsOf(rows));
    TiesAre(js, orderBy, RowsOf(rows), r, x);
    TiesAre(js, orderBy, RowsOf(rows), rows, x);
  }

  /** The rows that may stand before and after `x`. */
  function TiedWith(js: Js, orderBy: OrderBy, rows: seq<Row>, x: Row): seq<Row> {
    Filter((row: Row) =>
      && MayPrecede(js, Lookup(row, orderBy.column), Lookup(x, orderBy.column), orderBy.direction)
      && MayPrecede(js, Lookup(x, orderBy.column), Lookup(row, orderBy.column), orderBy.direction), rows)
  }

  lemma {:induction false} TiesAre(js: Js, orderBy: OrderBy, dom: set<Row>, rows: seq<Row>, x: Row)
    requires Preorders(RowOrder(js, orderBy), dom) && x in dom && forall row <- rows :: row in dom
    ensures TiedWith(js, orderBy, rows, x) == Ties(RowOrder(js, orderBy), rows, x)
  {
    hide CompareValues, MayPrecede;
    var cmp := RowOrder(js, orderBy);
    if rows != [] {
      TiesAre(js, orderBy, dom, rows[1..], x);
      var a, b := Lookup(rows[0], orderBy.column), Lookup(x, orderBy.column);
      MayPrecedeIsOrder(js, a, b, orderBy.direction);
      MayPrecedeIsOrder(js, b, a, orderBy.direction);
      Flips(cmp, dom, rows[0], x);
    }
  }

  // ---- LIMIT and columns -----------------------------------------------------------------------------------

  /** LIMIT keeps the first rows of what the query gives without it, and that many if there are. */
  lemma LimitMeans(js: Js, q: Query, n: nat, rows: seq<Row>)
    requires Execution(js, q.(limit := None), rows).Ok?
    ensures var all := Execution(js, q.(limit := None), rows).value;
      Execution(js, q.(limit := Some(n)), rows) == Ok(if n < |all| then all[..n] else all)
  {
    hide InOrder, Filtered;
    var ordered := InOrder(js, q, Filtered(js, q, rows));
    OtherClauses(js, q, n, rows);
    if q.columns == [] || q.columns[0] != "*" {
      ProjectRowsMean(ordered, q.columns);
      if n < |ordered| {
        ProjectRowsMean(ordered[..n], q.columns);
        ProjectPrefix(ordered, q.columns, n);
      }
    }
  }

  lemma OtherClauses(js: Js, q: Query, n: nat, rows: seq<Row>)
    ensures Filtered(js, q.(limit := None), rows) == Filtered(js, q.(limit := Some(n)), rows) == Filtered(js, q, rows)
    ensures forall s :: InOrder(js, q.(limit := None), s) == InOrder(js, q.(limit := Some(n)), s) == InOrder(js, q, s)
  {}

  lemma {:induction false} ProjectPrefix(rows: seq<Row>, columns: seq<string>, n: nat)
    requires n <= |rows| && ProjectRows(rows, columns).Ok?
    ensures |ProjectRows(rows, columns).value| == |rows|
    ensures ProjectRows(rows[..n], columns) == Ok(ProjectRows(rows, columns).value[..n])
    decreases |rows|
  {
    hide ProjectRow;
    if n == |rows| {
      assert rows[..n] == rows;
      ProjectRowsMean(rows, columns);
      assert ProjectRows(rows, columns).value[..n] == ProjectRows(rows, columns).value;
    } else {
      var init := rows[..|rows| - 1];
      assert init[..n] == rows[..n];
      ProjectPrefix(init, columns, n);
      var p := ProjectRow(rows[|rows| - 1], columns).value;
      assert (ProjectRows(init, columns).value + [p])[..n] == ProjectRows(init, columns).value[..n];
    }
  }

  /** Without the star, each row comes out as its own columns, in order; and the query fails exactly if
      some row lacks a column, naming what the first such row lacks first. */
  lemma {:induction false} ProjectRowsMean(rows: seq<Row>, columns: seq<string>)
    ensures var r := ProjectRows(rows, columns);
      && (r.Ok? <==> forall row <- rows :: ProjectRow(row, columns).Ok?)
      && (r.Ok? ==> |r.value| == |rows| && forall i :: 0 <= i < |rows| ==> ProjectRow(rows[i], columns) == Ok(r.value[i]))
      && (r.Err? ==> exists i: nat :: FirstLacking(rows, columns, i) && ProjectRow(rows[i], columns) == Err(r.error))
  {
    hide ProjectRow;
    if rows != [] {
      var init, last := rows[..|rows| - 1], rows[|rows| - 1];
      ProjectRowsMean(init, columns);
      assert rows == init + [last];
      assert last in rows && forall row <- rows :: row in init || row == last;
      var r := ProjectRows(init, columns);
      if r.Err? {
        var i: nat :| FirstLacking(init, columns, i) && ProjectRow(init[i], columns) == Err(r.error);
        assert rows[i] == init[i] && rows[..i] == init[..i];
        assert FirstLacking(rows, columns, i);
      } else if ProjectRow(last, columns).Err? {
        assert rows[..|init|] == init;
        assert FirstLacking(rows, columns, |init|);
      }
    }
  }

  predicate FirstLacking(rows: seq<Row>, columns: seq<string>, i: nat) {
    i < |rows| && ProjectRow(rows[i], columns).Err? && forall row <- rows[..i] :: ProjectRow(row, columns).Ok?
  }

  /** The star keeps rows as they are. */
  lemma StarKeepsRows(js: Js, q: Query, rows: seq<Row>)
    requires q.columns == ["*"]
    ensures Execution(js, q, rows) == Ok(Limited(q, InOrder(js, q, Filtered(js, q, rows))))
  {}
}
