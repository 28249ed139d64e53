// Queries, printed and read back.
module QueryRoundTrip {
  import opened Results
  import opened Digits
  import opened Whitespace
  import opened QueryLexer
  import opened QueryParser

  // ---- rendering as tokens: parentheses only where the grammar needs them ----------------

  function LiteralToken(v: Literal): Token {
    match v
    case NullLit => NullToken
    case NumberLit(n) => Number(n)
    case TextLit(s) => Text(s)
  }

  /** AND binds tighter than OR, and both associate to the left. */
  function Full(e: Expr): seq<Token>
    decreases e, 0
  {
    match e
    case Compare(column, op, v) => [Identifier(column), Operator(op), LiteralToken(v)]
    case AndExpr(l, r) => UnderAnd(l) + ([Key(AND)] + Operand(r))
    case OrExpr(l, r) => Full(l) + ([Key(OR)] + UnderAnd(r))
  }

  function InParens(e: Expr): seq<Token>
    decreases e, 1
  {
    [Delimiter('(')] + (Full(e) + [Delimiter(')')])
  }

  /** Under AND only an OR needs parentheses. */
  function UnderAnd(e: Expr): seq<Token>
    decreases e, 2
  {
    if e.OrExpr? then InParens(e) else Full(e)
  }

  /** The right operand of AND: any compound expression needs them. */
  function Operand(e: Expr): seq<Token>
    decreases e, 2
  {
    if e.Compare? then Full(e) else InParens(e)
  }

  function NameTokens(names: seq<string>): seq<Token> {
    if names == [] then [] else [Delimiter(','), Identifier(names[0])] + NameTokens(names[1..])
  }

  function ColumnTokens(columns: seq<string>): seq<Token>
    requires columns != []
  {
    if columns == ["*"] then [Delimiter('*')] else [Identifier(columns[0])] + NameTokens(columns[1..])
  }

  function FilterTokens(filter: Option<Expr>): seq<Token> {
    match filter
    case None => []
    case Some(e) => [Key(WHERE)] + Full(e)
  }

  function OrderTokens(orderBy: Option<OrderBy>): seq<Token> {
    match orderBy
    case None => []
    case Some(o) => [Key(ORDER), Key(BY), Identifier(o.column), Key(if o.direction.Ascending? then ASC else DESC)]
  }

  function LimitTokens(limit: Option<nat>): seq<Token> {
    match limit
    case None => []
    case Some(n) => [Key(LIMIT), Number(n)]
  }

  function QueryTokens(q: Query): seq<Token>
    requires q.columns != []
  {
    [Key(SELECT)] + (ColumnTokens(q.columns) + ([Key(FROM)] + ([Identifier(q.table)] +
      (FilterTokens(q.filter) + (OrderTokens(q.orderBy) + LimitTokens(q.limit))))))
  }

  // ---- parsing undoes rendering -----------------------------------------------------------

  lemma CompareBack(e: Expr, rest: seq<Token>)
    requires e.Compare?
    ensures Primary(Full(e) + rest) == Comparison(Full(e) + rest) == Ok((e, rest))
  {
    assert Full(e) == [Identifier(e.column), Operator(e.op), LiteralToken(e.value)];
    var ts := Full(e) + rest;
    assert ts[1..][2..] == rest;
  }

  lemma {:induction false} OperandBack(e: Expr, rest: seq<Token>)
    ensures Primary(Operand(e) + rest) == Ok((e, rest))
    decreases e, 3
  {
    if e.Compare? {
      CompareBack(e, rest);
    } else {
      ParensBack(e, rest);
    }
  }

  lemma {:induction false} ParensBack(e: Expr, rest: seq<Token>)
    ensures Primary(InParens(e) + rest) == Ok((e, rest))
    decreases e, 2
  {
    var ts, closing := InParens(e) + rest, [Delimiter(')')] + rest;
    assert ts[1..] == Full(e) + closing;
    assert closing[1..] == rest;
    FullBack(e, closing);
  }

  lemma {:induction false} UnderAndBack(e: Expr, rest: seq<Token>)
    ensures Conjunction(UnderAnd(e) + rest) == Conjuncts(e, rest)
    decreases e, 4
  {
    match e
    case Compare(_, _, _) => OperandBack(e, rest);
    case OrExpr(_, _) => ParensBack(e, rest);
    case AndExpr(_, _) => AndBack(e, rest);
  }

  lemma {:induction false} AndBack(e: Expr, rest: seq<Token>)
    requires e.AndExpr?
    ensures Conjunction(Full(e) + rest) == Conjuncts(e, rest)
    decreases e, 0
  {
    var tail := [Key(AND)] + (Operand(e.right) + rest);
    assert Full(e) + rest == UnderAnd(e.left) + tail;
    UnderAndBack(e.left, tail);
    assert tail[1..] == Operand(e.right) + rest;
    OperandBack(e.right, rest);
  }

  /** Whatever follows, as long as it cannot be taken for one more conjunct. */
  lemma {:induction false} FullBack(e: Expr, rest: seq<Token>)
    requires !Starts(rest, Key(AND))
    ensures Disjunction(Full(e) + rest) == Disjuncts(e, rest)
    decreases e, 1
  {
    match e
    case Compare(_, _, _) =>
      CompareBack(e, rest);
      assert Conjunction(Full(e) + rest) == Ok((e, rest));
    case AndExpr(_, _) => AndBack(e, rest);
    case OrExpr(l, r) =>
      var tail := [Key(OR)] + (UnderAnd(r) + rest);
      assert Full(e) + rest == Full(l) + tail;
      FullBack(l, tail);
      assert tail[1..] == UnderAnd(r) + rest;
      UnderAndBack(r, rest);
  }

  lemma DropTwo(head: seq<Token>, more: seq<Token>, rest: seq<Token>)
    requires |head| == 2
    ensures var ts := head + more + rest; ts[0] == head[0] && ts[1..][0] == head[1] && ts[1..][1..] == more + rest
  {}

  lemma NamesStep(names: seq<string>, rest: seq<Token>)
    requires names != []
    ensures var ts := NameTokens(names) + rest;
      Starts(ts, Delimiter(',')) && Name(ts[1..]) == Ok((names[0], NameTokens(names[1..]) + rest))
  {
    var ts, more := NameTokens(names) + rest, NameTokens(names[1..]);
    var head := [Delimiter(','), Identifier(names[0])];
    assert ts == head + more + rest;
    DropTwo(head, more, rest);
  }

  lemma {:induction false} NamesBack(done: seq<string>, names: seq<string>, rest: seq<Token>)
    requires !Starts(rest, Delimiter(','))
    ensures MoreColumns(done, NameTokens(names) + rest) == Ok((done + names, rest))
    decreases |names|
  {
    if names == [] {
      assert [] + rest == rest && done + names == done;
    } else {
      NamesBack(done + [names[0]], names[1..], rest);
      NamesStep(names, rest);
      assert done + [names[0]] + names[1..] == done + names;
    }
  }

  lemma ColumnsBack(columns: seq<string>, rest: seq<Token>)
    requires columns != [] && !Starts(rest, Delimiter(','))
    ensures Columns(ColumnTokens(columns) + rest) == Ok((columns, rest))
  {
    if columns == ["*"] {
      assert ([Delimiter('*')] + rest)[1..] == rest;
    } else {
      NamedColumnsBack(columns, rest);
    }
  }

  lemma NamedColumnsBack(columns: seq<string>, rest: seq<Token>)
    requires columns != [] && columns != ["*"] && !Starts(rest, Delimiter(','))
    ensures Columns(ColumnTokens(columns) + rest) == Ok((columns, rest))
  {
    hide MoreColumns, NameTokens;
    var names := NameTokens(columns[1..]);
    var ts := [Identifier(columns[0])] + names + rest;
    assert ts[1..] == names + rest;
    NamesBack([columns[0]], columns[1..], rest);
    assert [columns[0]] + columns[1..] == columns;
  }

  lemma FilterBack(filter: Option<Expr>, rest: seq<Token>)
    requires !Starts(rest, Key(AND)) && !Starts(rest, Key(OR)) && !Starts(rest, Key(WHERE))
    ensures Where(FilterTokens(filter) + rest) == Ok((filter, rest))
  {
    if filter.Some? {
      var ts := FilterTokens(filter) + rest;
      assert ts[1..] == Full(filter.value) + rest;
      FullBack(filter.value, rest);
    } else {
      assert [] + rest == rest;
    }
  }

  lemma OrderBack(orderBy: Option<OrderBy>, rest: seq<Token>)
    requires !Starts(rest, Key(ORDER))
    ensures Ordering(OrderTokens(orderBy) + rest) == Ok((orderBy, rest))
  {
    var ts := OrderTokens(orderBy) + rest;
    if orderBy.Some? {
      assert ts[2..][1..][1..] == rest;
    } else {
      assert ts == rest;
    }
  }

  lemma LimitBack(limit: Option<nat>)
    ensures Limit(LimitTokens(limit)) == Ok((limit, []))
  {
    if limit.Some? { assert LimitTokens(limit)[2..] == []; }
  }

  /** Parsing the tokens of a query gives the query, all tokens consumed. */
  lemma ParseUndoesRender(q: Query)
    requires q.columns != []
    ensures ParseQuery(QueryTokens(q)) == Ok(q)
  {
    hide Columns, Where, Ordering, Limit, ColumnTokens, FilterTokens;
    var ts5 := LimitTokens(q.limit);
    var ts4 := OrderTokens(q.orderBy) + ts5;
    var ts3 := FilterTokens(q.filter) + ts4;
    var ts2 := [Identifier(q.table)] + ts3;
    var ts1 := [Key(FROM)] + ts2;
    var ts := QueryTokens(q);
    assert ts[1..] == ColumnTokens(q.columns) + ts1;
    assert ts1[1..] == ts2 && ts2[1..] == ts3;
    ColumnsBack(q.columns, ts1);
    FilterBack(q.filter, ts4);
    OrderBack(q.orderBy, ts5);
    LimitBack(q.limit);
  }

  // ---- rendering as text ------------------------------------------------------------------

  /** A name the lexer reads as an identifier. */
  predicate IsName(s: string) {
    IsWord(s) && WordToken(s) == Identifier(s)
  }

  predicate Lexable(t: Token) {
    match t
    case Identifier(name) => IsName(name)
    case Text(s) => '\'' !in s
    case Delimiter(c) => IsDelimiter(c)
    case _ => true
  }

  function Word(t: Token): string {
    match t
    case Key(k) => KeywordText(k)
    case Identifier(name) => name
    case Number(n) => Decimal(n)
    case Text(s) => "'" + s + "'"
    case Operator(op) => OpText(op)
    case Delimiter(c) => [c]
    case NullToken => "NULL"
  }

  function Render(ts: seq<Token>): string {
    if ts == [] then "" else Word(ts[0]) + (if |ts| == 1 then "" else " " + Render(ts[1..]))
  }

  function RenderQuery(q: Query): string
    requires q.columns != []
  {
    Render(QueryTokens(q))
  }

  lemma WordSpells(t: Token)
    requires Lexable(t)
    ensures Spells(Word(t), t)
  {
    match t {
      case Key(k) => assert IsWord(KeywordText(k)) && Upper(KeywordText(k)) == KeywordText(k);
      case NullToken => assert IsWord("NULL") && Upper("NULL") == "NULL";
      case _ =>
    }
  }

  lemma {:induction false} RenderIsSpelled(ts: seq<Token>, lead: bool)
    requires forall t <- ts :: Lexable(t)
    requires lead ==> ts != []
    ensures Spelled((if lead then " " else "") + Render(ts), ts)
    decreases |ts|
  {
    hide Spells, Word, IsSpace, Lexable;
    if ts != [] {
      var word, gap, more := Word(ts[0]), if lead then " " else "", if |ts| == 1 then "" else " " + Render(ts[1..]);
      WordSpells(ts[0]);
      if |ts| == 1 {
        assert ts[1..] == [];
      } else {
        RenderIsSpelled(ts[1..], true);
      }
      OneWordSpelled(gap, word, more, ts);
      assert gap + word + more == gap + Render(ts);
    }
  }

  lemma OneWordSpelled(gap: string, word: string, more: string, ts: seq<Token>)
    requires ts != [] && (gap == "" || gap == " ") && Spells(word, ts[0])
    requires (more == "" || more[0] == ' ') && Spelled(more, ts[1..])
    ensures Spelled(gap + word + more, ts)
  {
    hide Spells, IsSpace;
    var s, g, n := gap + word + more, |gap|, |word|;
    BlankIsSpace();
    assert s[..g] == gap && s[g..g + n] == word && s[g + n..] == more;
    assert SpelledAt(s, ts, g, n);
  }

  lemma BlankIsSpace()
    ensures IsSpace(' ')
  {}

  // ---- well-formed queries -----------------------------------------------------------------

  predicate WellFormedExpr(e: Expr) {
    match e
    case Compare(column, _, v) => IsName(column) && (v.TextLit? ==> '\'' !in v.s)
    case AndExpr(l, r) => WellFormedExpr(l) && WellFormedExpr(r)
    case OrExpr(l, r) => WellFormedExpr(l) && WellFormedExpr(r)
  }

  /** The queries that query text can express: names the lexer reads as identifiers, at least
      one column or the star, and no quote inside a string. */
  predicate WellFormed(q: Query) {
    && q.columns != []
    && (q.columns == ["*"] || forall c <- q.columns :: IsName(c))
    && IsName(q.table)
    && (q.filter.Some? ==> WellFormedExpr(q.filter.value))
    && (q.orderBy.Some? ==> IsName(q.orderBy.value.column))
  }

  ghost predicate AllLexable(ts: seq<Token>) {
    forall t <- ts :: Lexable(t)
  }

  lemma {:induction false} FullLexable(e: Expr)
    requires WellFormedExpr(e)
    ensures AllLexable(Full(e)) && AllLexable(InParens(e))
  {
    hide IsName;
    match e
    case Compare(_, _, _) =>
    case AndExpr(l, r) => FullLexable(l); FullLexable(r);
    case OrExpr(l, r) => FullLexable(l); FullLexable(r);
  }

  lemma {:induction false} NamesLexable(names: seq<string>)
    requires forall c <- names :: IsName(c)
    ensures AllLexable(NameTokens(names))
  {
    hide IsName;
    if names != [] { NamesLexable(names[1..]); }
  }

  lemma QueryLexable(q: Query)
    requires WellFormed(q)
    ensures AllLexable(QueryTokens(q))
  {
    hide IsName;
    if q.columns != ["*"] { NamesLexable(q.columns[1..]); }
    if q.filter.Some? { FullLexable(q.filter.value); }
  }

  /** Text round trip, for every well-formed query. */
  lemma TextRoundTrip(q: Query)
    requires WellFormed(q)
    ensures Scan(RenderQuery(q)) == Ok(QueryTokens(q))
    ensures ParseQuery(QueryTokens(q)) == Ok(q)
  {
    QueryLexable(q);
    RenderIsSpelled(QueryTokens(q), false);
    assert "" + RenderQuery(q) == RenderQuery(q);
    ScanSpelled(RenderQuery(q), QueryTokens(q));
    ParseUndoesRender(q);
  }

  // ---- what text parses to is well formed ------------------------------------------------

  lemma {:induction false} ScanLexable(s: string)
    ensures Scan(s).Ok? ==> AllLexable(Scan(s).value)
    decreases |s|
  {
    if s != "" {
      match ScanOne(s)
      case Skip => ScanLexable(s[1..]);
      case Found(t, n) =>
        assert Lexable(ScanOne(s).token);
        ScanLexable(s[n..]);
      case Fail(_) =>
    }
  }

  ghost predicate GoodExpr(r: Parsed<Expr>) {
    r.Ok? ==> WellFormedExpr(r.value.0) && AllLexable(r.value.1)
  }

  lemma ComparisonWellFormed(ts: seq<Token>)
    requires AllLexable(ts)
    ensures GoodExpr(Comparison(ts))
  {
    hide IsName;
    if Comparison(ts).Ok? {
      assert Lexable(ts[0]) && Lexable(ts[2]);
      assert ts[1..][2..] == ts[3..] && ts[1..][1] == ts[2];
      assert AllLexable(ts[3..]);
    }
  }

  lemma {:induction false} PrimaryWellFormed(ts: seq<Token>)
    requires AllLexable(ts)
    ensures GoodExpr(Primary(ts))
    decreases |ts|, 0
  {
    hide IsName, Lexable;
    if Starts(ts, Delimiter('(')) {
      DisjunctionWellFormed(ts[1..]);
    } else {
      ComparisonWellFormed(ts);
    }
  }

  lemma {:induction false} ConjunctionWellFormed(ts: seq<Token>)
    requires AllLexable(ts)
    ensures GoodExpr(Conjunction(ts))
    decreases |ts|, 1
  {
    hide IsName, Lexable;
    PrimaryWellFormed(ts);
    var p := Primary(ts);
    if p.Ok? { ConjunctsWellFormed(p.value.0, p.value.1); }
  }

  lemma {:induction false} ConjunctsWellFormed(left: Expr, ts: seq<Token>)
    requires AllLexable(ts) && WellFormedExpr(left)
    ensures GoodExpr(Conjuncts(left, ts))
    decreases |ts|, 1
  {
    hide IsName, Lexable;
    if Starts(ts, Key(AND)) {
      PrimaryWellFormed(ts[1..]);
      var p := Primary(ts[1..]);
      if p.Ok? { ConjunctsWellFormed(AndExpr(left, p.value.0), p.value.1); }
    }
  }

  lemma {:induction false} DisjunctionWellFormed(ts: seq<Token>)
    requires AllLexable(ts)
    ensures GoodExpr(Disjunction(ts))
    decreases |ts|, 2
  {
    hide IsName, Lexable;
    ConjunctionWellFormed(ts);
    var p := Conjunction(ts);
    if p.Ok? { DisjunctsWellFormed(p.value.0, p.value.1); }
  }

  lemma {:induction false} DisjunctsWellFormed(left: Expr, ts: seq<Token>)
    requires AllLexable(ts) && WellFormedExpr(left)
    ensures GoodExpr(Disjuncts(left, ts))
    decreases |ts|, 2
  {
    hide IsName, Lexable;
    if Starts(ts, Key(OR)) {
      ConjunctionWellFormed(ts[1..]);
      var p := Conjunction(ts[1..]);
      if p.Ok? { DisjunctsWellFormed(OrExpr(left, p.value.0), p.value.1); }
    }
  }

  lemma {:induction false} MoreColumnsWellFormed(columns: seq<string>, ts: seq<Token>)
    requires AllLexable(ts) && forall c <- columns :: IsName(c)
    ensures var r := MoreColumns(columns, ts);
      r.Ok? ==> |r.value.0| >= |columns| && (forall c <- r.value.0 :: IsName(c)) && AllLexable(r.value.1)
    decreases |ts|
  {
    hide IsName;
    if Starts(ts, Delimiter(',')) {
      var n := Name(ts[1..]);
      if n.Ok? {
        assert Lexable(ts[1]);
        MoreColumnsWellFormed(columns + [n.value.0], n.value.1);
      }
    }
  }

  lemma ColumnsWellFormed(ts: seq<Token>)
    requires AllLexable(ts)
    ensures var r := Columns(ts);
      r.Ok? ==>
        && r.value.0 != [] && (r.value.0 == ["*"] || forall c <- r.value.0 :: IsName(c))
        && AllLexable(r.value.1)
  {
    hide IsName;
    if ts != [] && !Starts(ts, Delimiter('*')) {
      var n := Name(ts);
      if n.Ok? {
        assert Lexable(ts[0]);
        MoreColumnsWellFormed([n.value.0], n.value.1);
      }
    }
  }

  lemma OrderingWellFormed(ts: seq<Token>)
    requires AllLexable(ts)
    ensures var r := Ordering(ts);
      r.Ok? ==> (r.value.0.Some? ==> IsName(r.value.0.value.column)) && AllLexable(r.value.1)
  {
    hide IsName;
    if Ordering(ts).Ok? && Starts(ts, Key(ORDER)) {
      assert Lexable(ts[2]);
    }
  }

  lemma ParsedIsWellFormed(ts: seq<Token>)
    requires AllLexable(ts) && ParseQuery(ts).Ok?
    ensures WellFormed(ParseQuery(ts).value)
  {
    hide IsName, Columns, Ordering, Limit;
    ColumnsWellFormed(ts[1..]);
    var ts1 := Columns(ts[1..]).value.1;
    var ts2 := Name(ts1[1..]).value.1;
    assert Lexable(ts1[1]);
    assert AllLexable(ts2);
    if Starts(ts2, Key(WHERE)) { DisjunctionWellFormed(ts2[1..]); }
    OrderingWellFormed(Where(ts2).value.1);
  }

  /** Whatever text is accepted, printing its query and reading that again gives the same query. */
  lemma AcceptedTextRoundTrips(text: string, ts: seq<Token>, q: Query)
    requires Scan(text) == Ok(ts) && ParseQuery(ts) == Ok(q)
    ensures WellFormed(q)
    ensures Scan(RenderQuery(q)) == Ok(QueryTokens(q)) && ParseQuery(QueryTokens(q)) == Ok(q)
  {
    ScanLexable(text);
    ParsedIsWellFormed(ts);
    TextRoundTrip(q);
  }
}
