// evals/corpus/query/parser.ts: recursive descent over a token list with a cursor.
module QueryParser {
  import opened Results
  import opened QueryLexer

  datatype Literal = NullLit | NumberLit(n: nat) | TextLit(s: string)

  datatype Expr =
    | Compare(column: string, op: CmpOp, value: Literal)
    | AndExpr(left: Expr, right: Expr)
    | OrExpr(left: Expr, right: Expr)

  datatype Direction = Ascending | Descending

  datatype OrderBy = OrderBy(column: string, direction: Direction)

  datatype Query = Query(
    columns: seq<string>,
    table: string,
    filter: Option<Expr>,
    orderBy: Option<OrderBy>,
    limit: Option<nat>)

  datatype ParseError =
    | ExpectedKeyword(keyword: Keyword)
    | ExpectedIdentifier
    | ExpectedNumber
    | ExpectedOperator(column: string)
    | ExpectedValue
    | ExpectedClosing
    | UnexpectedToken

  /** A parsed thing and the tokens that are left. */
  type Parsed<T> = Result<(T, seq<Token>), ParseError>

  predicate Starts(ts: seq<Token>, t: Token) {
    ts != [] && ts[0] == t
  }

  // ---- the grammar, on the remaining tokens ---------------------------------------------

  function Name(ts: seq<Token>): (r: Parsed<string>)
    ensures r.Ok? ==> ts != [] && r.value.1 == ts[1..]
  {
    if ts != [] && ts[0].Identifier? then Ok((ts[0].name, ts[1..])) else Err(ExpectedIdentifier)
  }

  function LiteralOf(t: Token): Option<Literal> {
    match t
    case Text(s) => Some(TextLit(s))
    case Number(n) => Some(NumberLit(n))
    case NullToken => Some(NullLit)
    case _ => None
  }

  function Comparison(ts: seq<Token>): (r: Parsed<Expr>)
    ensures r.Ok? ==> |r.value.1| < |ts|
  {
    var (column, ts1) :- Name(ts);
    if ts1 == [] || !ts1[0].Operator? then Err(ExpectedOperator(column))
    else if |ts1| == 1 || LiteralOf(ts1[1]).None? then Err(ExpectedValue)
    else Ok((Compare(column, ts1[0].op, LiteralOf(ts1[1]).value), ts1[2..]))
  }

  function Primary(ts: seq<Token>): (r: Parsed<Expr>)
    ensures r.Ok? ==> |r.value.1| < |ts|
    decreases |ts|, 0
  {
    if Starts(ts, Delimiter('(')) then
      var (e, rest) :- Disjunction(ts[1..]);
      if Starts(rest, Delimiter(')')) then Ok((e, rest[1..])) else Err(ExpectedClosing)
    else Comparison(ts)
  }

  function Conjunction(ts: seq<Token>): (r: Parsed<Expr>)
    ensures r.Ok? ==> |r.value.1| < |ts|
    decreases |ts|, 1
  {
    var (left, rest) :- Primary(ts);
    Conjuncts(left, rest)
  }

  function Conjuncts(left: Expr, ts: seq<Token>): (r: Parsed<Expr>)
    ensures r.Ok? ==> |r.value.1| <= |ts|
    decreases |ts|, 1
  {
    if !Starts(ts, Key(AND)) then Ok((left, ts))
    else
      var (right, rest) :- Primary(ts[1..]);
      Conjuncts(AndExpr(left, right), rest)
  }

  function Disjunction(ts: seq<Token>): (r: Parsed<Expr>)
    ensures r.Ok? ==> |r.value.1| < |ts|
    decreases |ts|, 2
  {
    var (left, rest) :- Conjunction(ts);
    Disjuncts(left, rest)
  }

  function Disjuncts(left: Expr, ts: seq<Token>): (r: Parsed<Expr>)
    ensures r.Ok? ==> |r.value.1| <= |ts|
    decreases |ts|, 2
  {
    if !Starts(ts, Key(OR)) then Ok((left, ts))
    else
      var (right, rest) :- Conjunction(ts[1..]);
      Disjuncts(OrExpr(left, right), rest)
  }

  function Columns(ts: seq<Token>): (r: Parsed<seq<string>>)
    ensures r.Ok? ==> |r.value.1| < |ts|
  {
    if Starts(ts, Delimiter('*')) then Ok((["*"], ts[1..]))
    else
      var (first, rest) :- Name(ts);
      MoreColumns([first], rest)
  }

  function MoreColumns(columns: seq<string>, ts: seq<Token>): (r: Parsed<seq<string>>)
    ensures r.Ok? ==> |r.value.1| <= |ts|
    decreases |ts|
  {
    if !Starts(ts, Delimiter(',')) then Ok((columns, ts))
    else
      var (next, rest) :- Name(ts[1..]);
      MoreColumns(columns + [next], rest)
  }

  function Where(ts: seq<Token>): Parsed<Option<Expr>> {
    if !Starts(ts, Key(WHERE)) then Ok((None, ts))
    else
      var (e, rest) :- Disjunction(ts[1..]);
      Ok((Some(e), rest))
  }

  function Ordering(ts: seq<Token>): Parsed<Option<OrderBy>> {
    if !Starts(ts, Key(ORDER)) then Ok((None, ts))
    else if !Starts(ts[1..], Key(BY)) then Err(ExpectedKeyword(BY))
    else
      var (column, rest) :- Name(ts[2..]);
      if Starts(rest, Key(ASC)) then Ok((Some(OrderBy(column, Ascending)), rest[1..]))
      else if Starts(rest, Key(DESC)) then Ok((Some(OrderBy(column, Descending)), rest[1..]))
      else Ok((Some(OrderBy(column, Ascending)), rest))
  }

  function Limit(ts: seq<Token>): Parsed<Option<nat>> {
    if !Starts(ts, Key(LIMIT)) then Ok((None, ts))
    else if |ts| == 1 || !ts[1].Number? then Err(ExpectedNumber)
    else Ok((Some(ts[1].n), ts[2..]))
  }

  function ParseQuery(ts: seq<Token>): Result<Query, ParseError> {
    if !Starts(ts, Key(SELECT)) then Err(ExpectedKeyword(SELECT))
    else
      var (columns, ts1) :- Columns(ts[1..]);
      if !Starts(ts1, Key(FROM)) then Err(ExpectedKeyword(FROM))
      else
        var (table, ts2) :- Name(ts1[1..]);
        var (filter, ts3) :- Where(ts2);
        var (orderBy, ts4) :- Ordering(ts3);
        var (limit, ts5) :- Limit(ts4);
        if ts5 == [] then Ok(Query(columns, table, filter, orderBy, limit)) else Err(UnexpectedToken)
  }

  // ---- the class --------------------------------------------------------------------------

  class Parser {
    var pos: nat
    const tokens: seq<Token>

    constructor (tokens: seq<Token>)
      ensures this.tokens == tokens && pos == 0
    {
      this.tokens := tokens;
      pos := 0;
    }

    /** The cursor never runs past the end. */
    ghost predicate Valid()
      reads this
    {
      pos <= |tokens|
    }

    ghost function Rest(): seq<Token>
      requires Valid()
      reads this
    {
      tokens[pos..]
    }

    /** The outcome of a method and where it leaves the cursor agree with the grammar. */
    ghost predicate Follows<T>(r: Result<T, ParseError>, spec: Parsed<T>)
      requires Valid()
      reads this
    {
      match spec
      case Ok((x, rest)) => r == Ok(x) && Rest() == rest
      case Err(e) => r == Err(e)
    }

    predicate At(t: Token)
      requires Valid()
      reads this
      ensures At(t) == Starts(Rest(), t)
    {
      pos < |tokens| && tokens[pos] == t
    }

    method Advance()
      requires Valid() && Rest() != []
      modifies `pos
      ensures Valid() && pos == old(pos) + 1 && Rest() == old(Rest())[1..]
    {
      pos := pos + 1;
    }

    method ParseIdentifier() returns (r: Result<string, ParseError>)
      requires Valid()
      modifies `pos
      ensures Valid() && pos >= old(pos) && Follows(r, Name(old(Rest())))
    {
      if pos < |tokens| && tokens[pos].Identifier? {
        r := Ok(tokens[pos].name);
        Advance();
      } else {
        r := Err(ExpectedIdentifier);
      }
    }

    method ParseOrExpression() returns (r: Result<Expr, ParseError>)
      requires Valid()
      modifies `pos
      ensures Valid() && pos >= old(pos) && Follows(r, Disjunction(old(Rest())))
      decreases |tokens| - pos, 2
    {
      ghost var start := Rest();
      var left :- ParseAndExpression();
      while At(Key(OR))
        invariant Valid() && pos > old(pos)
        invariant Disjunction(start) == Disjuncts(left, Rest())
        decreases |tokens| - pos
      {
        Advance();
        var right :- ParseAndExpression();
        left := OrExpr(left, right);
      }
      return Ok(left);
    }

    method ParseAndExpression() returns (r: Result<Expr, ParseError>)
      requires Valid()
      modifies `pos
      ensures Valid() && pos >= old(pos) && Follows(r, Conjunction(old(Rest())))
      ensures r.Ok? ==> pos > old(pos)
      decreases |tokens| - pos, 1
    {
      ghost var start := Rest();
      var left :- ParsePrimaryExpression();
      while At(Key(AND))
        invariant Valid() && pos > old(pos)
        invariant Conjunction(start) == Conjuncts(left, Rest())
        decreases |tokens| - pos
      {
        Advance();
        var right :- ParsePrimaryExpression();
        left := AndExpr(left, right);
      }
      return Ok(left);
    }

    method ParsePrimaryExpression() returns (r: Result<Expr, ParseError>)
      requires Valid()
      modifies `pos
      ensures Valid() && pos >= old(pos) && Follows(r, Primary(old(Rest())))
      ensures r.Ok? ==> pos > old(pos)
      decreases |tokens| - pos, 0
    {
      if At(Delimiter('(')) {
        Advance();
        var expr :- ParseOrExpression();
        if !At(Delimiter(')')) {
          return Err(ExpectedClosing);
        }
        Advance();
        return Ok(expr);
      }
      ghost var start := Rest();
      var column :- ParseIdentifier();
      if pos >= |tokens| || !tokens[pos].Operator? {
        return Err(ExpectedOperator(column));
      }
      var op := tokens[pos].op;
      Advance();
      if pos >= |tokens| || LiteralOf(tokens[pos]).None? {
        return Err(ExpectedValue);
      }
      var value := LiteralOf(tokens[pos]).value;
      Advance();
      assert Rest() == start[1..][2..];
      return Ok(Compare(column, op, value));
    }

    method ParseColumns() returns (r: Result<seq<string>, ParseError>)
      requires Valid()
      modifies `pos
      ensures Valid() && pos >= old(pos) && Follows(r, Columns(old(Rest())))
    {
      if At(Delimiter('*')) {
        Advance();
        return Ok(["*"]);
      }
      ghost var start := Rest();
      var first :- ParseIdentifier();
      var columns := [first];
      while At(Delimiter(','))
        invariant Valid() && pos > old(pos)
        invariant Columns(start) == MoreColumns(columns, Rest())
        decreases |tokens| - pos
      {
        Advance();
        var next :- ParseIdentifier();
        columns := columns + [next];
      }
      return Ok(columns);
    }

    method ParseWhere() returns (r: Result<Option<Expr>, ParseError>)
      requires Valid()
      modifies `pos
      ensures Valid() && pos >= old(pos) && Follows(r, Where(old(Rest())))
    {
      if !At(Key(WHERE)) {
        return Ok(None);
      }
      Advance();
      var e :- ParseOrExpression();
      return Ok(Some(e));
    }

    method ParseOrderBy() returns (r: Result<Option<OrderBy>, ParseError>)
      requires Valid()
      modifies `pos
      ensures Valid() && pos >= old(pos) && Follows(r, Ordering(old(Rest())))
    {
      ghost var start := Rest();
      if !At(Key(ORDER)) {
        return Ok(None);
      }
      Advance();
      if !At(Key(BY)) {
        return Err(ExpectedKeyword(BY));
      }
      Advance();
      assert Rest() == start[2..];
      var column :- ParseIdentifier();
      var direction := Ascending;
      if At(Key(ASC)) {
        Advance();
      } else if At(Key(DESC)) {
        Advance();
        direction := Descending;
      }
      return Ok(Some(OrderBy(column, direction)));
    }

    method ParseLimit() returns (r: Result<Option<nat>, ParseError>)
      requires Valid()
      modifies `pos
      ensures Valid() && pos >= old(pos) && Follows(r, Limit(old(Rest())))
    {
      ghost var start := Rest();
      if !At(Key(LIMIT)) {
        return Ok(None);
      }
      Advance();
      if pos >= |tokens| || !tokens[pos].Number? {
        return Err(ExpectedNumber);
      }
      var n := tokens[pos].n;
      Advance();
      assert Rest() == start[2..];
      return Ok(Some(n));
    }

    method Parse() returns (r: Result<Query, ParseError>)
      requires pos == 0
      modifies `pos
      ensures r == ParseQuery(tokens)
    {
      hide Name, Columns, Where, Ordering, Limit;
      assert Rest() == tokens;
      if !At(Key(SELECT)) {
        return Err(ExpectedKeyword(SELECT));
      }
      Advance();
      var columns :- ParseColumns();
      if !At(Key(FROM)) {
        return Err(ExpectedKeyword(FROM));
      }
      Advance();
      var table :- ParseIdentifier();
      var filter :- ParseWhere();
      var orderBy :- ParseOrderBy();
      var limit :- ParseLimit();
      if pos < |tokens| {
        return Err(UnexpectedToken);
      }
      return Ok(Query(columns, table, filter, orderBy, limit));
    }
  }
}
