// evals/corpus/query/executor.ts and query.ts
module QueryExecutor {
  import opened Results
  import opened Whitespace
  import opened QueryLexer
  import opened QueryParser
  import opened QueryRoundTrip
  import opened StableSort

  // Filter, stable sort, limit and projection, and the whole pipeline from text to rows.

  /** What `row[column]` evaluates to. */
  datatype Value = Undefined | Null | Num(x: real) | Str(s: string)

  type Row = map<string, Value>

  /** The JavaScript built-ins the executor leans on: `Number(s)` (none for NaN), `String(x)` and
      `localeCompare`. */
  datatype Js = Js(toNumber: string -> Option<real>, numberText: real -> string, collate: (string, string) -> int)
  {
    /** `localeCompare` is a total preorder. */
    ghost predicate Collates() {
      && (forall a, b :: collate(a, b) < 0 <==> collate(b, a) > 0)
      && (forall a, b, c :: collate(a, b) <= 0 && collate(b, c) <= 0 ==> collate(a, c) <= 0)
    }
  }

  function Lookup(row: Row, column: string): Value {
    if column in row then row[column] else Undefined
  }

  // ---- WHERE ------------------------------------------------------------------------------

  function CompareReals(x: real, op: CmpOp, y: real): bool {
    match op
    case Eq => x == y
    case Ne => x != y
    case Lt => x < y
    case Gt => x > y
    case Le => x <= y
    case Ge => x >= y
  }

  /** Code-unit order of strings. */
  predicate StringLess(a: string, b: string) {
    b != "" && (a == "" || a[0] < b[0] || (a[0] == b[0] && StringLess(a[1..], b[1..])))
  }

  function CompareStrings(a: string, op: CmpOp, b: string): bool {
    match op
    case Eq => a == b
    case Ne => a != b
    case Lt => StringLess(a, b)
    case Gt => StringLess(b, a)
    case Le => !StringLess(b, a)
    case Ge => !StringLess(a, b)
  }

  /** A number against text that is not numeric, or `undefined` against anything: only `!=`. */
  predicate Incomparable(op: CmpOp) { op == Ne }

  function CompareColumn(js: Js, v: Value, op: CmpOp, literal: Literal): bool {
    if literal.NullLit? then op == Ne && v != Null
    else if v == Null then false
    else
      match (v, literal)
      case (Num(x), NumberLit(n)) => CompareReals(x, op, n as real)
      case (Str(s), TextLit(t)) => CompareStrings(s, op, t)
      case (Str(s), NumberLit(n)) =>
        var x := js.toNumber(s);
        if x.Some? then CompareReals(x.value, op, n as real) else Incomparable(op)
      case (Num(x), TextLit(t)) =>
        var y := js.toNumber(t);
        if y.Some? then CompareReals(x, op, y.value) else Incomparable(op)
      case _ => Incomparable(op)
  }

  function Evaluate(js: Js, e: Expr, row: Row): bool {
    match e
    case Compare(column, op, literal) => CompareColumn(js, Lookup(row, column), op, literal)
    case AndExpr(l, r) => Evaluate(js, l, row) && Evaluate(js, r, row)
    case OrExpr(l, r) => Evaluate(js, l, row) || Evaluate(js, r, row)
  }

  function Holds(js: Js, e: Expr): Row -> bool {
    (row: Row) => Evaluate(js, e, row)
  }

  lemma {:induction false} StringTrichotomy(a: string, b: string)
    ensures a == b ==> !StringLess(a, b) && !StringLess(b, a)
    ensures a != b ==> StringLess(a, b) != StringLess(b, a)
  {
    if a != "" && b != "" && a[0] == b[0] {
      StringTrichotomy(a[1..], b[1..]);
      assert a == b <==> a[1..] == b[1..] by {
        assert a == [a[0]] + a[1..] && b == [b[0]] + b[1..];
      }
    }
  }

  /** The six operators agree with one another. Null satisfies nothing, not even `= null`;
      everything else satisfies exactly one of `=` and `!=`, and at most one of `<`, `=`, `>`,
      with `<=` and `>=` their unions. */
  lemma OperatorsAgree(js: Js, v: Value, literal: Literal)
    ensures v == Null ==> forall op :: !CompareColumn(js, v, op, literal)
    ensures v != Null ==> CompareColumn(js, v, Ne, literal) == !CompareColumn(js, v, Eq, literal)
    ensures var lt, eq, gt := CompareColumn(js, v, Lt, literal), CompareColumn(js, v, Eq, literal), CompareColumn(js, v, Gt, literal);
      && !(lt && eq) && !(eq && gt) && !(lt && gt)
      && CompareColumn(js, v, Le, literal) == (lt || eq)
      && CompareColumn(js, v, Ge, literal) == (gt || eq)
  {
    if v.Str? && literal.TextLit? { StringTrichotomy(v.s, literal.s); }
  }

  // ---- ORDER BY ---------------------------------------------------------------------------

  function NumberOf(js: Js, v: Value): Option<real> {
    match v
    case Num(x) => Some(x)
    case Str(s) => js.toNumber(s)
    case _ => None
  }

  function TextOf(js: Js, v: Value): string {
    match v
    case Num(x) => js.numberText(x)
    case Str(s) => s
    case Null => "null"
    case Undefined => "undefined"
  }

  function Sign(x: real): int {
    if x < 0.0 then -1 else if x > 0.0 then 1 else 0
  }

  function Directed(cmp: int, direction: Direction): int {
    if direction.Ascending? then cmp else -cmp
  }

  /** The comparator; of a numeric difference only the sign is kept. */
  function CompareValues(js: Js, a: Value, b: Value, direction: Direction): int {
    if a == Null && b == Null then 0
    else if a == Null then 1
    else if b == Null then -1
    else
      var x, y := NumberOf(js, a), NumberOf(js, b);
      if x.Some? && y.Some? then Directed(Sign(x.value - y.value), direction)
      else Directed(js.collate(TextOf(js, a), TextOf(js, b)), direction)
  }

  function RowOrder(js: Js, orderBy: OrderBy): (Row, Row) -> int {
    (a: Row, b: Row) => CompareValues(js, Lookup(a, orderBy.column), Lookup(b, orderBy.column), orderBy.direction)
  }

  predicate IsNumeral(js: Js, v: Value) {
    NumberOf(js, v).Some?
  }

  /** All non-null values of the column look like numbers, or none does. */
  ghost predicate Homogeneous(js: Js, column: string, dom: set<Row>) {
    forall a, b | a in dom && b in dom && Lookup(a, column) != Null && Lookup(b, column) != Null ::
      IsNumeral(js, Lookup(a, column)) == IsNumeral(js, Lookup(b, column))
  }

  /** All values of the column that look like numbers read alike. */
  ghost predicate OneNumeral(js: Js, column: string, dom: set<Row>) {
    forall a, b | a in dom && b in dom && IsNumeral(js, Lookup(a, column)) && IsNumeral(js, Lookup(b, column)) ::
      TextOf(js, Lookup(a, column)) == TextOf(js, Lookup(b, column))
  }

  /** The text of a value reads as the number that the value is, or as none. */
  predicate Reads(js: Js, v: Value) {
    v != Null ==> js.toNumber(TextOf(js, v)) == NumberOf(js, v)
  }

  /** So do those of the column: numbers are read back from their texts, and "undefined" is none. */
  ghost predicate ReadsBack(js: Js, column: string, dom: set<Row>) {
    forall r <- dom :: Reads(js, Lookup(r, column))
  }

  ghost predicate Orderable(js: Js, column: string, dom: set<Row>) {
    Homogeneous(js, column, dom) || (ReadsBack(js, column, dom) && OneNumeral(js, column, dom))
  }

  /** The comparator, were it not for numbers. */
  function CompareTexts(js: Js, a: Value, b: Value, direction: Direction): int {
    if a == Null && b == Null then 0
    else if a == Null then 1
    else if b == Null then -1
    else Directed(js.collate(TextOf(js, a), TextOf(js, b)), direction)
  }

  lemma TextsFlip(js: Js, a: Value, b: Value, direction: Direction)
    requires js.Collates()
    ensures CompareTexts(js, a, b, direction) < 0 <==> CompareTexts(js, b, a, direction) > 0
  {
    var s, t := TextOf(js, a), TextOf(js, b);
    assert js.collate(s, t) < 0 <==> js.collate(t, s) > 0;
    assert js.collate(t, s) < 0 <==> js.collate(s, t) > 0;
  }

  lemma TextsChain(js: Js, a: Value, b: Value, c: Value, direction: Direction)
    requires js.Collates() && CompareTexts(js, a, b, direction) <= 0 && CompareTexts(js, b, c, direction) <= 0
    ensures CompareTexts(js, a, c, direction) <= 0
  {
    if a != Null && b != Null && c != Null {
      var s, t, u := TextOf(js, a), TextOf(js, b), TextOf(js, c);
      if direction.Ascending? {
        assert js.collate(s, t) <= 0 && js.collate(t, u) <= 0;
      } else {
        assert js.collate(s, t) < 0 <==> js.collate(t, s) > 0;
        assert js.collate(t, u) < 0 <==> js.collate(u, t) > 0;
        assert js.collate(t, s) <= 0 && js.collate(u, t) <= 0;
        assert js.collate(s, u) < 0 <==> js.collate(u, s) > 0;
      }
    }
  }

  /** Two values that look like numbers and have one text are one number. */
  lemma SameText(js: Js, a: Value, b: Value, direction: Direction)
    requires js.Collates()
    requires IsNumeral(js, a) && IsNumeral(js, b) ==> Reads(js, a) && Reads(js, b) && TextOf(js, a) == TextOf(js, b)
    ensures CompareValues(js, a, b, direction) == CompareTexts(js, a, b, direction)
  {
    if IsNumeral(js, a) && IsNumeral(js, b) {
      var t := TextOf(js, a);
      assert js.toNumber(t) == NumberOf(js, a) == NumberOf(js, b);
      assert js.collate(t, t) < 0 <==> js.collate(t, t) > 0;
    }
  }

  /** All of them numbers, or all of them compared as text. */
  ghost predicate Uniform(js: Js, vs: seq<Value>) {
    || (forall v <- vs :: v == Null || IsNumeral(js, v))
    || (forall a, b | a in vs && b in vs && IsNumeral(js, a) && IsNumeral(js, b) ::
          Reads(js, a) && Reads(js, b) && TextOf(js, a) == TextOf(js, b))
  }

  lemma CompareFlips(js: Js, a: Value, b: Value, direction: Direction)
    requires js.Collates() && Uniform(js, [a, b, b])
    ensures CompareValues(js, a, b, direction) < 0 <==> CompareValues(js, b, a, direction) > 0
  {
    assert a in [a, b, b] && b in [a, b, b];
    if !((a == Null || IsNumeral(js, a)) && (b == Null || IsNumeral(js, b))) {
      TextsFlip(js, a, b, direction);
      SameText(js, a, b, direction);
      SameText(js, b, a, direction);
    }
  }

  lemma CompareChains(js: Js, a: Value, b: Value, c: Value, direction: Direction)
    requires js.Collates() && Uniform(js, [a, b, c])
    requires CompareValues(js, a, b, direction) <= 0 && CompareValues(js, b, c, direction) <= 0
    ensures CompareValues(js, a, c, direction) <= 0
  {
    var vs := [a, b, c];
    assert a in vs && b in vs && c in vs;
    if !(forall v <- vs :: v == Null || IsNumeral(js, v)) {
      SameText(js, a, b, direction);
      SameText(js, b, c, direction);
      SameText(js, a, c, direction);
      TextsChain(js, a, b, c, direction);
    }
  }

  lemma OrderableIsUniform(js: Js, column: string, dom: set<Row>, a: Row, b: Row, c: Row)
    requires Orderable(js, column, dom) && a in dom && b in dom && c in dom
    ensures Uniform(js, [Lookup(a, column), Lookup(b, column), Lookup(c, column)])
  {
    hide Lookup, TextOf, IsNumeral;
    var x, y, z := Lookup(a, column), Lookup(b, column), Lookup(c, column);
    if Homogeneous(js, column, dom) {
      assert (x != Null && !IsNumeral(js, x)) || (y != Null && !IsNumeral(js, y)) || (z != Null && !IsNumeral(js, z))
        ==> forall v <- [x, y, z] :: v == Null || !IsNumeral(js, v);
      NullIsNoNumeral(js);
    }
  }

  lemma NullIsNoNumeral(js: Js)
    ensures !IsNumeral(js, Null)
  {}

  /** On such a column the comparator is a total preorder of the rows. */
  lemma RowOrderPreorders(js: Js, orderBy: OrderBy, dom: set<Row>)
    requires js.Collates() && Orderable(js, orderBy.column, dom)
    ensures Preorders(RowOrder(js, orderBy), dom)
  {
    hide CompareValues, IsNumeral, Lookup, Uniform, Orderable;
    var cmp, column, direction := RowOrder(js, orderBy), orderBy.column, orderBy.direction;
    forall a, b | a in dom && b in dom
      ensures cmp(a, b) < 0 <==> cmp(b, a) > 0
    {
      OrderableIsUniform(js, column, dom, a, b, b);
      CompareFlips(js, Lookup(a, column), Lookup(b, column), direction);
    }
    forall a, b, c | a in dom && b in dom && c in dom && cmp(a, b) <= 0 && cmp(b, c) <= 0
      ensures cmp(a, c) <= 0
    {
      OrderableIsUniform(js, column, dom, a, b, c);
      CompareChains(js, Lookup(a, column), Lookup(b, column), Lookup(c, column), direction);
    }
  }

  // ---- and on no other column -----------------------------------------------------------------

  function Collating(js: Js, collate: (string, string) -> int): Js {
    js.(collate := collate)
  }

  function Rank(s: string, low: string, high: string): int {
    if s == low then 0 else if s == high then 2 else 1
  }

  /** A collation with `low` in front, `high` at the end and all else between them. */
  function Ranked(low: string, high: string): (string, string) -> int {
    (s: string, t: string) => Rank(s, low, high) - Rank(t, low, high)
  }

  lemma RankedCollates(js: Js, low: string, high: string)
    ensures Collating(js, Ranked(low, high)).Collates()
  {}

  /** The collation that has the texts of `x` and `y` the wrong way round in this direction. */
  function Backwards(js: Js, x: Value, y: Value, direction: Direction): (string, string) -> int {
    if direction.Ascending? then Ranked(TextOf(js, y), TextOf(js, x)) else Ranked(TextOf(js, x), TextOf(js, y))
  }

  /** Any text that is no numeral comes between them then. */
  lemma TextBetween(js: Js, x: Value, y: Value, z: Value, direction: Direction)
    requires Reads(js, x) && Reads(js, y) && Reads(js, z) && IsNumeral(js, x) && IsNumeral(js, y) && z != Null && !IsNumeral(js, z)
    requires TextOf(js, x) != TextOf(js, y)
    ensures var js' := Collating(js, Backwards(js, x, y, direction));
      CompareValues(js', y, z, direction) < 0 < CompareValues(js', x, z, direction)
  {
  }

  /** So under that collation the comparator is no preorder. */
  lemma MixedBreaks(js: Js, orderBy: OrderBy, dom: set<Row>, a: Row, b: Row, c: Row)
    requires ReadsBack(js, orderBy.column, dom) && a in dom && b in dom && c in dom
    requires var x, y, z := Lookup(a, orderBy.column), Lookup(b, orderBy.column), Lookup(c, orderBy.column);
      && IsNumeral(js, x) && IsNumeral(js, y) && z != Null && !IsNumeral(js, z)
      && TextOf(js, x) != TextOf(js, y) && CompareValues(js, x, y, orderBy.direction) <= 0
    ensures exists collate ::
      Collating(js, collate).Collates() && !Preorders(RowOrder(Collating(js, collate), orderBy), dom)
  {
    hide Lookup, Ranked, TextOf;
    var x, y, z := Lookup(a, orderBy.column), Lookup(b, orderBy.column), Lookup(c, orderBy.column);
    var collate := Backwards(js, x, y, orderBy.direction);
    var js' := Collating(js, collate);
    RankedCollates(js, TextOf(js, x), TextOf(js, y));
    RankedCollates(js, TextOf(js, y), TextOf(js, x));
    TextBetween(js, x, y, z, orderBy.direction);
    NumbersStay(js, collate, x, y, orderBy.direction);
    var cmp := RowOrder(js', orderBy);
    if Preorders(cmp, dom) { NotBetween(cmp, dom, a, b, c); }
    assert js'.Collates() && !Preorders(cmp, dom);
  }

  lemma NotBetween(cmp: (Row, Row) -> int, dom: set<Row>, a: Row, b: Row, c: Row)
    requires a in dom && b in dom && c in dom && Preorders(cmp, dom) && cmp(a, b) <= 0 && cmp(b, c) < 0
    ensures cmp(a, c) <= 0
  {
    Chains(cmp, dom, a, b, c);
  }

  lemma NumbersStay(js: Js, collate: (string, string) -> int, x: Value, y: Value, direction: Direction)
    requires IsNumeral(js, x) && IsNumeral(js, y)
    ensures CompareValues(Collating(js, collate), x, y, direction) == CompareValues(js, x, y, direction)
  {}

  /** The comparator orders the rows under every lawful collation exactly if all non-null values of
      the column look like numbers, or none does, or all that do read alike. */
  lemma OrderableExactly(js: Js, orderBy: OrderBy, dom: set<Row>)
    requires ReadsBack(js, orderBy.column, dom)
    ensures (forall collate :: Collating(js, collate).Collates() ==> Preorders(RowOrder(Collating(js, collate), orderBy), dom))
       <==> Homogeneous(js, orderBy.column, dom) || OneNumeral(js, orderBy.column, dom)
  {
    hide CompareValues, Lookup, TextOf, Preorders, RowOrder;
    var column := orderBy.column;
    if Homogeneous(js, column, dom) || OneNumeral(js, column, dom) {
      forall collate | Collating(js, collate).Collates()
        ensures Preorders(RowOrder(Collating(js, collate), orderBy), dom)
      {
        SameReading(js, collate, column, dom);
        RowOrderPreorders(Collating(js, collate), orderBy, dom);
      }
    } else {
      var a, b :| a in dom && b in dom && IsNumeral(js, Lookup(a, column)) && IsNumeral(js, Lookup(b, column))
                  && TextOf(js, Lookup(a, column)) != TextOf(js, Lookup(b, column));
      var c, d :| c in dom && d in dom && Lookup(c, column) != Null && Lookup(d, column) != Null
                  && IsNumeral(js, Lookup(c, column)) != IsNumeral(js, Lookup(d, column));
      var other := if IsNumeral(js, Lookup(c, column)) then d else c;
      NumbersCompare(js, Lookup(a, column), Lookup(b, column), orderBy.direction);
      if CompareValues(js, Lookup(a, column), Lookup(b, column), orderBy.direction) <= 0 {
        MixedBreaks(js, orderBy, dom, a, b, other);
      } else {
        MixedBreaks(js, orderBy, dom, b, a, other);
      }
    }
  }

  /** Such a column, mixed and yet ordered under every collation: the number 9 and the text "x". */
  lemma OneNumeralOrders(column: string)
    ensures var js := Js(s => if s == "9" then Some(9.0) else None, _ => "9", (_, _) => 0);
      var dom := {map[column := Num(9.0)], map[column := Str("x")]};
      && js.Collates() && ReadsBack(js, column, dom) && OneNumeral(js, column, dom) && !Homogeneous(js, column, dom)
  {
    var a, b: Row := map[column := Num(9.0)], map[column := Str("x")];
    assert Lookup(a, column) == Num(9.0) && Lookup(b, column) == Str("x");
  }

  lemma SameReading(js: Js, collate: (string, string) -> int, column: string, dom: set<Row>)
    requires ReadsBack(js, column, dom) && (Homogeneous(js, column, dom) || OneNumeral(js, column, dom))
    ensures Orderable(Collating(js, collate), column, dom)
  {
    hide Lookup;
    var js' := Collating(js, collate);
    assert forall v :: NumberOf(js', v) == NumberOf(js, v) && TextOf(js', v) == TextOf(js, v);
    assert ReadsBack(js', column, dom);
  }

  lemma NumbersCompare(js: Js, a: Value, b: Value, direction: Direction)
    requires IsNumeral(js, a) && IsNumeral(js, b)
    ensures CompareValues(js, a, b, direction) <= 0 || CompareValues(js, b, a, direction) <= 0
  {}

  /** For one: 9 < 10 as numbers, and "10" < "1a" < "9" as text. */
  lemma MixedColumnCycles(js: Js, column: string)
    requires js.toNumber("9") == Some(9.0) && js.toNumber("10") == Some(10.0) && js.toNumber("1a") == None
    requires js.collate("10", "1a") < 0 && js.collate("1a", "9") < 0
    ensures var a, b, c := map[column := Str("9")], map[column := Str("10")], map[column := Str("1a")];
      var cmp := RowOrder(js, OrderBy(column, Ascending));
      cmp(a, b) < 0 && cmp(b, c) < 0 && cmp(c, a) < 0 && !Preorders(cmp, {a, b, c})
  {
    var a, b, c := map[column := Str("9")], map[column := Str("10")], map[column := Str("1a")];
    var cmp := RowOrder(js, OrderBy(column, Ascending));
    if Preorders(cmp, {a, b, c}) {
      Chains(cmp, {a, b, c}, a, b, c);
      Flips(cmp, {a, b, c}, c, a);
    }
  }

  // ---- projection -------------------------------------------------------------------------

  datatype QueryError =
    | EmptyQuery
    | BadText(lexError: LexError)
    | BadSyntax(parseError: ParseError)
    | ColumnNotFound(column: string)

  function ProjectRow(row: Row, columns: seq<string>): Result<Row, QueryError> {
    if columns == [] then Ok(map[])
    else
      var last := columns[|columns| - 1];
      var projected :- ProjectRow(row, columns[..|columns| - 1]);
      if last in row then Ok(projected[last := row[last]]) else Err(ColumnNotFound(last))
  }

  function ProjectRows(rows: seq<Row>, columns: seq<string>): Result<seq<Row>, QueryError> {
    if rows == [] then Ok([])
    else
      var init :- ProjectRows(rows[..|rows| - 1], columns);
      var projected :- ProjectRow(rows[|rows| - 1], columns);
      Ok(init + [projected])
  }

  function Project(rows: seq<Row>, columns: seq<string>): Result<seq<Row>, QueryError> {
    if columns != [] && columns[0] == "*" then Ok(rows) else ProjectRows(rows, columns)
  }

  /** The `i`-th column is missing, and no earlier one. */
  predicate FirstMissing(row: Row, columns: seq<string>, i: int) {
    0 <= i < |columns| && columns[i] !in row && forall c <- columns[..i] :: c in row
  }

  /** A projected row has exactly the named columns, with the row's own values; projection
      fails exactly when some column is missing, and then names the first missing one. */
  lemma {:induction false} ProjectRowMeans(row: Row, columns: seq<string>)
    ensures var r := ProjectRow(row, columns);
      && (r.Ok? <==> forall c <- columns :: c in row)
      && (r.Ok? ==> (forall c :: c in r.value <==> c in columns) && forall c <- r.value.Keys :: r.value[c] == row[c])
      && (r.Err? ==> exists i :: FirstMissing(row, columns, i) && r.error == ColumnNotFound(columns[i]))
  {
    if columns != [] {
      var init, last := columns[..|columns| - 1], columns[|columns| - 1];
      ProjectRowMeans(row, init);
      assert columns == init + [last];
      var r := ProjectRow(row, init);
      if r.Err? {
        var i :| FirstMissing(row, init, i) && r.error == ColumnNotFound(init[i]);
        assert columns[..i] == init[..i] && columns[i] == init[i];
        assert FirstMissing(row, columns, i);
      } else if last !in row {
        assert FirstMissing(row, columns, |init|);
      }
    }
  }

  method ProjectColumns(rows: seq<Row>, columns: seq<string>) returns (r: Result<seq<Row>, QueryError>)
    ensures r == Project(rows, columns)
  {
    if columns != [] && columns[0] == "*" {
      return Ok(rows);
    }
    var out: seq<Row> := [];
    for i := 0 to |rows|
      invariant ProjectRows(rows[..i], columns) == Ok(out)
    {
      var row := rows[i];
      assert rows[..i + 1][..i] == rows[..i];
      var projected: Row := map[];
      for j := 0 to |columns|
        invariant ProjectRow(row, columns[..j]) == Ok(projected)
      {
        assert columns[..j + 1][..j] == columns[..j];
        if columns[j] !in row {
          assert ProjectRow(row, columns[..j + 1]) == Err(ColumnNotFound(columns[j]));
          ProjectRowFails(row, columns, j + 1);
          ProjectRowsFail(rows, columns, i + 1);
          return Err(ColumnNotFound(columns[j]));
        }
        projected := projected[columns[j] := row[columns[j]]];
      }
      assert columns[..|columns|] == columns;
      out := out + [projected];
    }
    assert rows[..|rows|] == rows;
    return Ok(out);
  }

  lemma {:induction false} ProjectRowFails(row: Row, columns: seq<string>, j: nat)
    requires j <= |columns| && ProjectRow(row, columns[..j]).Err?
    ensures ProjectRow(row, columns) == ProjectRow(row, columns[..j])
    decreases |columns|
  {
    if j < |columns| {
      var init := columns[..|columns| - 1];
      assert init[..j] == columns[..j];
      ProjectRowFails(row, init, j);
    } else {
      assert columns[..j] == columns;
    }
  }

  lemma {:induction false} ProjectRowsFail(rows: seq<Row>, columns: seq<string>, i: nat)
    requires 0 < i <= |rows| && ProjectRows(rows[..i - 1], columns).Ok? && ProjectRow(rows[i - 1], columns).Err?
    ensures ProjectRows(rows, columns) == Err(ProjectRow(rows[i - 1], columns).error)
    decreases |rows|
  {
    if i < |rows| {
      var init := rows[..|rows| - 1];
      assert init[..i - 1] == rows[..i - 1];
      ProjectRowsFail(init, columns, i);
    }
  }

  // ---- execute ----------------------------------------------------------------------------

  function Filtered(js: Js, q: Query, rows: seq<Row>): seq<Row> {
    if q.filter.Some? then Filter(Holds(js, q.filter.value), rows) else rows
  }

  function InOrder(js: Js, q: Query, rows: seq<Row>): seq<Row> {
    if q.orderBy.Some? then Sorted(RowOrder(js, q.orderBy.value), rows) else rows
  }

  function Limited(q: Query, rows: seq<Row>): seq<Row> {
    if q.limit.Some? && q.limit.value < |rows| then rows[..q.limit.value] else rows
  }

  function Execution(js: Js, q: Query, rows: seq<Row>): Result<seq<Row>, QueryError> {
    Project(Limited(q, InOrder(js, q, Filtered(js, q, rows))), q.columns)
  }

  ghost function RowsOf(rows: seq<Row>): set<Row> {
    set r | r in rows
  }

  /** What a sort of these rows needs to be defined: an order column whose values compare. */
  ghost predicate Sortable(js: Js, q: Query, rows: seq<Row>) {
    q.orderBy.Some? ==> js.Collates() && Orderable(js, q.orderBy.value.column, RowsOf(rows))
  }

  method FilterRows(js: Js, e: Expr, rows: seq<Row>) returns (r: seq<Row>)
    ensures r == Filter(Holds(js, e), rows)
  {
    r := [];
    for i := 0 to |rows|
      invariant Filter(Holds(js, e), rows) == r + Filter(Holds(js, e), rows[i..])
    {
      assert rows[i..][1..] == rows[i + 1..];
      if Evaluate(js, e, rows[i]) { r := r + [rows[i]]; }
    }
  }

  /** `r` comes of the filtered rows in some order: the given one without ORDER BY. */
  ghost predicate Rearranged(js: Js, q: Query, rows: seq<Row>, ordered: seq<Row>, r: Result<seq<Row>, QueryError>) {
    && multiset(ordered) == multiset(Filtered(js, q, rows))
    && (q.orderBy.None? ==> ordered == Filtered(js, q, rows))
    && r == Project(Limited(q, ordered), q.columns)
  }

  /** What may come of a query: its execution; or, where the order column mixes numerals and other
      text so that the comparator orders nothing, a limit and projection of the rows that match. */
  ghost predicate Answers(js: Js, q: Query, rows: seq<Row>, r: Result<seq<Row>, QueryError>) {
    && (exists ordered :: Rearranged(js, q, rows, ordered, r))
    && (Sortable(js, q, Filtered(js, q, rows)) ==> r == Execution(js, q, rows))
  }

  method Execute(js: Js, q: Query, rows: seq<Row>) returns (r: Result<seq<Row>, QueryError>)
    ensures Answers(js, q, rows, r)
  {
    hide Project, CompareValues;
    var result := rows;
    if q.filter.Some? {
      result := FilterRows(js, q.filter.value, result);
    }
    if q.orderBy.Some? {
      if js.Collates() && Orderable(js, q.orderBy.value.column, RowsOf(result)) {
        RowOrderPreorders(js, q.orderBy.value, RowsOf(result));
      }
      result := StableSorting(result, RowOrder(js, q.orderBy.value), RowsOf(result));
    }
    ghost var ordered := result;
    if q.limit.Some? && q.limit.value < |result| {
      result := result[..q.limit.value];
    }
    r := ProjectColumns(result, q.columns);
    assert Rearranged(js, q, rows, ordered, r);
  }

  /** WHERE pushdown: it makes no difference whether rows are filtered before or after sorting. */
  lemma WherePushdown(js: Js, q: Query, rows: seq<Row>)
    requires Sortable(js, q, rows)
    ensures InOrder(js, q, Filtered(js, q, rows)) == Filtered(js, q, InOrder(js, q, rows))
    ensures Execution(js, q, rows) == Project(Limited(q, Filtered(js, q, InOrder(js, q, rows))), q.columns)
  {
    if q.orderBy.Some? && q.filter.Some? {
      RowOrderPreorders(js, q.orderBy.value, RowsOf(rows));
      FilterSorted(RowOrder(js, q.orderBy.value), RowsOf(rows), Holds(js, q.filter.value), rows);
    }
  }

  /** The sorted rows are the one permutation that is ordered and keeps ties in input order; in
      both directions the nulls come last. */
  lemma OrderByMeans(js: Js, orderBy: OrderBy, rows: seq<Row>, r: seq<Row>)
    requires js.Collates() && Orderable(js, orderBy.column, RowsOf(rows))
    ensures var cmp := RowOrder(js, orderBy);
      r == Sorted(cmp, rows)
      <==> Ordered(cmp, r) && multiset(r) == multiset(rows) && SameTies(cmp, RowsOf(rows), r, rows)
    ensures r == Sorted(RowOrder(js, orderBy), rows) ==>
      forall i, j | 0 <= i < j < |r| :: Lookup(r[i], orderBy.column) == Null ==> Lookup(r[j], orderBy.column) == Null
  {
    var cmp := RowOrder(js, orderBy);
    RowOrderPreorders(js, orderBy, RowsOf(rows));
    SortedIsTheStableOrder(cmp, RowsOf(rows), rows, r);
    if r == Sorted(cmp, rows) {
      forall i, j | 0 <= i < j < |r| && Lookup(r[i], orderBy.column) == Null
        ensures Lookup(r[j], orderBy.column) == Null
      {
        assert cmp(r[i], r[j]) <= 0;
      }
    }
  }

  // ---- the pipeline -----------------------------------------------------------------------

  /** The query that a text denotes. */
  function Parsed(text: string): Result<Query, QueryError> {
    if Blank(text) then Err(EmptyQuery)
    else
      match Scan(text)
      case Err(e) => Err(BadText(e))
      case Ok(tokens) =>
        match ParseQuery(tokens)
        case Err(e) => Err(BadSyntax(e))
        case Ok(q) => Ok(q)
  }

  method RunQuery(js: Js, text: string, rows: seq<Row>) returns (r: Result<seq<Row>, QueryError>)
    ensures Parsed(text).Err? ==> r == Err(Parsed(text).error)
    ensures Parsed(text).Ok? ==> Answers(js, Parsed(text).value, rows, r)
  {
    hide Answers;
    if Blank(text) {
      return Err(EmptyQuery);
    }
    var tokens := Lex(text);
    if tokens.Err? {
      return Err(BadText(tokens.error));
    }
    var parser := new Parser(tokens.value);
    var q := parser.Parse();
    if q.Err? {
      return Err(BadSyntax(q.error));
    }
    r := Execute(js, q.value, rows);
  }

  /** A well-formed query, written out, is the query its text denotes. */
  lemma {:induction false} RenderedQueryMeansItself(q: Query)
    requires WellFormed(q)
    ensures Parsed(RenderQuery(q)) == Ok(q)
  {
    TextRoundTrip(q);
    var text := RenderQuery(q);
    assert QueryTokens(q)[0] == Key(SELECT);
    assert text[0] == KeywordText(SELECT)[0];
    Classes('S');
    assert !IsSpace(text[0]) && text[0] in text;
  }
}
