// The texts that are queries, and which ones.
module QueryGrammar {
  import opened Results
  import opened Digits
  import opened Whitespace
  import opened QueryLexer
  import opened QueryParser

  // ---- words ------------------------------------------------------------------------------------

  /** What may follow a word: nothing that would make it longer. */
  predicate Stops(t: Token, rest: string) {
    rest == "" ||
    match t
    case Key(_) => !IsIdentPart(rest[0])
    case NullToken => !IsIdentPart(rest[0])
    case Identifier(_) => !IsIdentPart(rest[0])
    case Number(_) => !IsDigit(rest[0])
    case Operator(op) => op == Lt || op == Gt ==> rest[0] != '='
    case _ => true
  }

  /** The text begins with a spelling of the token, `n` long. */
  predicate WordAt(s: string, t: Token, n: nat) {
    n <= |s| && Spells(s[..n], t) && Stops(t, s[n..])
  }

  /** What no token begins with. */
  function Wrong(s: string): Option<LexError>
    requires s != ""
  {
    if s[0] == '\'' then if '\'' in s[1..] then None else Some(UnterminatedString)
    else if IsIdentStart(s[0]) || IsDigit(s[0]) || IsDelimiter(s[0]) || s[0] in "=<>" || "!=" <= s then None
    else Some(UnexpectedCharacter(s[0]))
  }

  lemma WordFound(s: string, t: Token, n: nat)
    requires WordAt(s, t, n)
    ensures s != "" && n > 0 && !IsSpace(s[0]) && ScanOne(s) == Found(t, n)
  {
    hide IsSpace, WordToken, Upper, KeywordText;
    var word := s[..n];
    assert forall i :: 0 <= i < n ==> s[i] == word[i];
    if n < |s| { assert s[n..][0] == s[n]; }
    match t {
      case Number(_) => NumberFound(s, t, n);
      case Text(_) =>
        ScanText(s, n, t);
        Classes('\'');
      case Operator(op) => OperatorFound(s, t, n);
      case Delimiter(c) => Classes(c);
      case _ => IdentifierFound(s, t, n);
    }
  }

  lemma NumberFound(s: string, t: Token, n: nat)
    requires WordAt(s, t, n) && t.Number?
    ensures s != "" && n > 0 && !IsSpace(s[0]) && ScanOne(s) == Found(t, n)
  {
    hide IsSpace, WordToken;
    var word := s[..n];
    forall i | 0 <= i < n ensures IsDigit(s[i]) { assert s[i] == word[i] && word[i] in word; }
    Classes(s[0]);
    RunIs(s, IsDigit, n);
  }

  lemma OperatorFound(s: string, t: Token, n: nat)
    requires WordAt(s, t, n) && t.Operator?
    ensures s != "" && n > 0 && !IsSpace(s[0]) && ScanOne(s) == Found(t, n)
  {
    hide IsSpace, WordToken;
    var word := s[..n];
    assert forall i :: 0 <= i < n ==> s[i] == word[i];
    Classes(s[0]);
  }

  lemma IdentifierFound(s: string, t: Token, n: nat)
    requires WordAt(s, t, n) && (t.Key? || t.NullToken? || t.Identifier?)
    ensures s != "" && n > 0 && !IsSpace(s[0]) && ScanOne(s) == Found(t, n)
  {
    hide IsSpace, WordToken, Upper, KeywordText;
    var word := s[..n];
    forall i | 0 <= i < n ensures IsIdentPart(s[i]) { assert s[i] == word[i] && word[i] in word; }
    Classes(s[0]);
    RunIs(s, IsIdentPart, n);
    WordIsItsToken(word, t);
  }

  lemma FoundWord(s: string)
    requires s != "" && ScanOne(s).Found?
    ensures WordAt(s, ScanOne(s).token, ScanOne(s).length)
  {
    hide IsSpace, WordToken, WordAt, Symbol, Run;
    if s[0] == '\'' {
      QuotedWord(s, Run(s[1..], NotQuote));
    } else if Symbol(s).Found? {
      SymbolIsWord(s);
    } else if IsDigit(s[0]) {
      DigitsWord(s, Run(s, IsDigit));
    } else {
      NameWord(s, Run(s, IsIdentPart));
    }
  }

  lemma QuotedWord(s: string, n: nat)
    requires s != "" && s[0] == '\'' && n == Run(s[1..], NotQuote) < |s| - 1
    ensures WordAt(s, Text(s[1..1 + n]), n + 2)
  {
    assert s[..n + 2] == "'" + s[1..1 + n] + "'";
  }

  lemma DigitsWord(s: string, n: nat)
    requires s != "" && IsDigit(s[0]) && n == Run(s, IsDigit)
    ensures WordAt(s, Number(DigitsValue(s[..n])), n)
  {
    assert forall i :: 0 <= i < n ==> s[..n][i] == s[i];
  }

  lemma NameWord(s: string, n: nat)
    requires s != "" && IsIdentStart(s[0]) && !IsDigit(s[0]) && n == Run(s, IsIdentPart)
    ensures WordAt(s, WordToken(s[..n]), n)
  {
    hide Upper, KeywordText;
    assert forall i :: 0 <= i < n ==> s[..n][i] == s[i];
    NamedWord(s[..n]);
  }

  lemma SymbolIsWord(s: string)
    requires s != "" && Symbol(s).Found?
    ensures WordAt(s, Symbol(s).token, Symbol(s).length)
  {}

  lemma NamedWord(word: string)
    requires IsWord(word)
    ensures Spells(word, WordToken(word))
    ensures WordToken(word).Key? || WordToken(word).NullToken? || WordToken(word).Identifier?
  {}

  /** One step of the scan: a token where a word of it begins, an error where none does. */
  lemma ScanOneExactly(s: string, t: Token, n: nat)
    requires s != ""
    ensures ScanOne(s) == Found(t, n) <==> WordAt(s, t, n)
    ensures ScanOne(s).Skip? <==> IsSpace(s[0])
    ensures forall e :: ScanOne(s) == Fail(e) <==> !IsSpace(s[0]) && Wrong(s) == Some(e)
  {
    if WordAt(s, t, n) { WordFound(s, t, n); }
    if ScanOne(s).Found? { FoundWord(s); }
    WrongExactly(s);
  }

  lemma WrongExactly(s: string)
    requires s != ""
    ensures ScanOne(s).Skip? <==> IsSpace(s[0])
    ensures forall e :: ScanOne(s) == Fail(e) <==> !IsSpace(s[0]) && Wrong(s) == Some(e)
  {
    hide IsSpace, WordToken;
    Classes(s[0]);
    if s[0] == '\'' {
      var n := Run(s[1..], NotQuote);
      if n < |s| - 1 { assert s[1..][n] == '\''; }
      assert forall i :: 0 <= i < n ==> NotQuote(s[1..][i]);
    }
  }

  predicate IsLetter(c: char) { 'a' <= c <= 'z' || 'A' <= c <= 'Z' }

  lemma KeywordSpelled(word: string, k: Keyword)
    requires |word| == |KeywordText(k)|
    requires forall i :: 0 <= i < |word| ==> IsLetter(word[i]) && UpperChar(word[i]) == KeywordText(k)[i]
    ensures Spells(word, Key(k))
  {
    assert Upper(word) == KeywordText(k);
  }

  /** The vocabulary; keywords in any letter case. */
  lemma Clauses()
    ensures Spells("SELECT", Key(SELECT)) && Spells("from", Key(FROM)) && Spells("Where", Key(WHERE))
    ensures Spells("ORDER", Key(ORDER)) && Spells("BY", Key(BY)) && Spells("LIMIT", Key(LIMIT))
  {
    hide Spells, IsLetter, UpperChar;
    assert forall c :: 'A' <= c <= 'Z' ==> IsLetter(c) && UpperChar(c) == c by { Capitals(); }
    LowerCase();
    KeywordSpelled("SELECT", SELECT);
    KeywordSpelled("from", FROM);
    KeywordSpelled("Where", WHERE);
    KeywordSpelled("ORDER", ORDER);
    KeywordSpelled("BY", BY);
    KeywordSpelled("LIMIT", LIMIT);
  }

  lemma Connectives()
    ensures Spells("AND", Key(AND)) && Spells("OR", Key(OR)) && Spells("ASC", Key(ASC)) && Spells("DESC", Key(DESC))
  {
    hide Spells, IsLetter, UpperChar;
    assert forall c :: 'A' <= c <= 'Z' ==> IsLetter(c) && UpperChar(c) == c by { Capitals(); }
    KeywordSpelled("AND", AND);
    KeywordSpelled("OR", OR);
    KeywordSpelled("ASC", ASC);
    KeywordSpelled("DESC", DESC);
  }

  lemma Capitals()
    ensures forall c :: 'A' <= c <= 'Z' ==> IsLetter(c) && UpperChar(c) == c
  {}

  lemma LowerCase()
    ensures forall c <- "fromhere" :: IsLetter(c)
    ensures UpperChar('f') == 'F' && UpperChar('r') == 'R' && UpperChar('o') == 'O' && UpperChar('m') == 'M'
    ensures UpperChar('h') == 'H' && UpperChar('e') == 'E'
  {}

  lemma Signs()
    ensures Spells("=", Operator(Eq)) && Spells("!=", Operator(Ne)) && Spells("<", Operator(Lt))
    ensures Spells(">", Operator(Gt)) && Spells("<=", Operator(Le)) && Spells(">=", Operator(Ge))
    ensures forall c :: Spells([c], Delimiter(c)) <==> c in "(),*"
  {}

  lemma Constants()
    ensures Spells("null", NullToken) && Spells("42", Number(42)) && Spells("'it'", Text("it")) && Spells("x_1", Identifier("x_1"))
  {
    assert Upper("null") == "NULL" && Upper("x_1")[1] == '_';
    assert "42"[..1] == "4" && "4"[..0] == "" && DigitsValue("") == 0;
    assert DigitsValue("4") == 4;
    assert "'" + "it" + "'" == "'it'";
  }

  // ---- texts as tokens ------------------------------------------------------------------------------

  /** The text is these tokens' words, with white space wherever it likes between them. */
  ghost predicate Reads(s: string, ts: seq<Token>)
    decreases |s|
  {
    if s == "" then ts == []
    else if IsSpace(s[0]) then Reads(s[1..], ts)
    else ts != [] && exists n: nat :: 0 < n <= |s| && WordAt(s, ts[0], n) && Reads(s[n..], ts[1..])
  }

  /** After some words, and white space, comes what is none. */
  ghost predicate Breaks(s: string, e: LexError)
    decreases |s|
  {
    s != "" &&
    if IsSpace(s[0]) then Breaks(s[1..], e)
    else Wrong(s) == Some(e) || exists t, n: nat :: 0 < n <= |s| && WordAt(s, t, n) && Breaks(s[n..], e)
  }

  /** For every text: scanning gives exactly the tokens it reads as, and fails exactly where it breaks. */
  lemma {:induction false} ScanExactly(s: string)
    ensures forall ts :: Scan(s) == Ok(ts) <==> Reads(s, ts)
    ensures forall e :: Scan(s) == Err(e) <==> Breaks(s, e)
    decreases |s|
  {
    hide ScanOne, IsSpace, WordAt, Wrong;
    if s != "" {
      WrongExactly(s);
      match ScanOne(s) {
        case Skip => ScanExactly(s[1..]);
        case Found(t, n) =>
          FoundWord(s);
          OneWord(s);
          ScanExactly(s[n..]);
          forall ts ensures Scan(s) == Ok(ts) <==> Reads(s, ts) { ReadsOn(s, t, n, ts); }
          forall e ensures Scan(s) == Err(e) <==> Breaks(s, e) { BreaksOn(s, t, n, e); }
        case Fail(e) =>
          OneWord(s);
          assert forall ts :: !Reads(s, ts);
      }
    }
  }

  lemma OneWord(s: string)
    requires s != ""
    ensures forall t, n: nat :: WordAt(s, t, n) ==> ScanOne(s) == Found(t, n)
  {
    forall t, n: nat | WordAt(s, t, n) ensures ScanOne(s) == Found(t, n) { WordFound(s, t, n); }
  }

  lemma ReadsOn(s: string, t: Token, n: nat, ts: seq<Token>)
    requires s != "" && ScanOne(s) == Found(t, n) && WordAt(s, t, n) && !IsSpace(s[0])
    requires forall us :: Scan(s[n..]) == Ok(us) <==> Reads(s[n..], us)
    ensures Scan(s) == Ok(ts) <==> Reads(s, ts)
  {
    hide ScanOne, IsSpace, WordAt, Wrong;
    OneWord(s);
    var rest := Scan(s[n..]);
    if Scan(s) == Ok(ts) {
      assert ts == [t] + rest.value && ts[1..] == rest.value;
    }
    if Reads(s, ts) {
      var k: nat :| 0 < k <= |s| && WordAt(s, ts[0], k) && Reads(s[k..], ts[1..]);
      assert [ts[0]] + ts[1..] == ts;
    }
  }

  lemma BreaksOn(s: string, t: Token, n: nat, e: LexError)
    requires s != "" && ScanOne(s) == Found(t, n) && WordAt(s, t, n) && !IsSpace(s[0]) && Wrong(s) == None
    requires forall x :: Scan(s[n..]) == Err(x) <==> Breaks(s[n..], x)
    ensures Scan(s) == Err(e) <==> Breaks(s, e)
  {
    hide ScanOne, IsSpace, WordAt, Wrong;
    OneWord(s);
  }

  // ---- expressions --------------------------------------------------------------------------------------

  predicate IsLiteral(t: Token, v: Literal) {
    match v
    case TextLit(s) => t == Text(s)
    case NumberLit(n) => t == Number(n)
    case NullLit => t == NullToken
  }

  predicate IsComparison(ts: seq<Token>, e: Expr) {
    e.Compare? && |ts| == 3 && ts[0] == Identifier(e.column) && ts[1] == Operator(e.op) && IsLiteral(ts[2], e.value)
  }

  ghost predicate IsPrimary(ts: seq<Token>, e: Expr)
    decreases |ts|, 0
  {
    || IsComparison(ts, e)
    || (|ts| >= 2 && ts[0] == Delimiter('(') && ts[|ts| - 1] == Delimiter(')') && IsOr(ts[1..|ts| - 1], e))
  }

  ghost predicate IsAnd(ts: seq<Token>, e: Expr)
    decreases |ts|, 1
  {
    || IsPrimary(ts, e)
    || (e.AndExpr? && exists i: nat :: i < |ts| && ts[i] == Key(AND) && IsAnd(ts[..i], e.left) && IsPrimary(ts[i + 1..], e.right))
  }

  ghost predicate IsOr(ts: seq<Token>, e: Expr)
    decreases |ts|, 2
  {
    || IsAnd(ts, e)
    || (e.OrExpr? && exists i: nat :: i < |ts| && ts[i] == Key(OR) && IsOr(ts[..i], e.left) && IsAnd(ts[i + 1..], e.right))
  }

  lemma Parts(a: seq<Token>, t: Token, b: seq<Token>)
    ensures var ts := a + [t] + b; ts[..|a|] == a && ts[|a|] == t && ts[|a| + 1..] == b
  {}

  // ---- the parser finds only these --------------------------------------------------------------------------

  /** What was parsed of `ts` is `k` tokens long. */
  ghost predicate Took<T>(ts: seq<Token>, r: Parsed<T>, k: nat) {
    r.Ok? && k <= |ts| && r.value.1 == ts[k..]
  }

  lemma {:induction false} PrimarySound(ts: seq<Token>) returns (k: nat)
    requires Primary(ts).Ok?
    ensures Took(ts, Primary(ts), k) && IsPrimary(ts[..k], Primary(ts).value.0)
    decreases |ts|, 0
  {
    if Starts(ts, Delimiter('(')) {
      var j := OrSound(ts[1..]);
      k := j + 2;
      assert ts[..k][1..k - 1] == ts[1..][..j];
    } else {
      k := 3;
    }
  }

  lemma {:induction false} AndSound(ts: seq<Token>) returns (k: nat)
    requires Conjunction(ts).Ok?
    ensures Took(ts, Conjunction(ts), k) && IsAnd(ts[..k], Conjunction(ts).value.0)
    decreases |ts|, 1
  {
    var j := PrimarySound(ts);
    k := AndsSound(ts, j, Primary(ts).value.0);
  }

  lemma {:induction false} AndsSound(ts: seq<Token>, j: nat, left: Expr) returns (k: nat)
    requires 0 < j <= |ts| && IsAnd(ts[..j], left) && Conjuncts(left, ts[j..]).Ok?
    ensures Took(ts, Conjuncts(left, ts[j..]), k) && IsAnd(ts[..k], Conjuncts(left, ts[j..]).value.0)
    decreases |ts|, 0, |ts| - j
  {
    hide IsPrimary, Primary;
    k := j;
    if Starts(ts[j..], Key(AND)) {
      var rest := ts[j..][1..];
      assert rest == ts[j + 1..];
      var i := PrimarySound(rest);
      var right := Primary(rest).value.0;
      var n := j + 1 + i;
      assert ts[..n] == ts[..j] + [Key(AND)] + rest[..i] && rest[i..] == ts[n..];
      Parts(ts[..j], Key(AND), rest[..i]);
      assert IsAnd(ts[..n], AndExpr(left, right));
      k := AndsSound(ts, n, AndExpr(left, right));
    }
  }

  lemma {:induction false} OrSound(ts: seq<Token>) returns (k: nat)
    requires Disjunction(ts).Ok?
    ensures Took(ts, Disjunction(ts), k) && IsOr(ts[..k], Disjunction(ts).value.0)
    decreases |ts|, 3
  {
    var j := AndSound(ts);
    k := OrsSound(ts, j, Conjunction(ts).value.0);
  }

  lemma {:induction false} OrsSound(ts: seq<Token>, j: nat, left: Expr) returns (k: nat)
    requires 0 < j <= |ts| && IsOr(ts[..j], left) && Disjuncts(left, ts[j..]).Ok?
    ensures Took(ts, Disjuncts(left, ts[j..]), k) && IsOr(ts[..k], Disjuncts(left, ts[j..]).value.0)
    decreases |ts|, 2, |ts| - j
  {
    hide IsAnd, Conjunction;
    k := j;
    if Starts(ts[j..], Key(OR)) {
      var rest := ts[j..][1..];
      assert rest == ts[j + 1..];
      var i := AndSound(rest);
      var right := Conjunction(rest).value.0;
      var n := j + 1 + i;
      assert ts[..n] == ts[..j] + [Key(OR)] + rest[..i] && rest[i..] == ts[n..];
      Parts(ts[..j], Key(OR), rest[..i]);
      assert IsOr(ts[..n], OrExpr(left, right));
      k := OrsSound(ts, n, OrExpr(left, right));
    }
  }

  // ---- and all of these ------------------------------------------------------------------------------------

  lemma {:induction false} PrimaryComplete(ts: seq<Token>, e: Expr, rest: seq<Token>)
    requires IsPrimary(ts, e)
    ensures Primary(ts + rest) == Ok((e, rest))
    decreases |ts|, 0
  {
    var all := ts + rest;
    if IsComparison(ts, e) {
      assert all[1..][2..] == rest;
    } else {
      var inner, closing := ts[1..|ts| - 1], [Delimiter(')')] + rest;
      assert all[1..] == inner + closing && closing[1..] == rest;
      OrComplete(inner, e, closing);
    }
  }

  lemma SplitAt(ts: seq<Token>, i: nat, t: Token, rest: seq<Token>)
    requires i < |ts| && ts[i] == t
    ensures var tail := [t] + (ts[i + 1..] + rest);
      ts + rest == ts[..i] + tail && tail[0] == t && tail[1..] == ts[i + 1..] + rest
  {}

  lemma {:induction false} AndComplete(ts: seq<Token>, e: Expr, rest: seq<Token>)
    requires IsAnd(ts, e)
    ensures Conjunction(ts + rest) == Conjuncts(e, rest)
    decreases |ts|, 1
  {
    hide IsPrimary, Primary;
    if IsPrimary(ts, e) {
      PrimaryComplete(ts, e, rest);
    } else {
      hide Conjunction;
      var i: nat :| i < |ts| && ts[i] == Key(AND) && IsAnd(ts[..i], e.left) && IsPrimary(ts[i + 1..], e.right);
      SplitAt(ts, i, Key(AND), rest);
      AndComplete(ts[..i], e.left, [Key(AND)] + (ts[i + 1..] + rest));
      PrimaryComplete(ts[i + 1..], e.right, rest);
    }
  }

  lemma {:induction false} OrComplete(ts: seq<Token>, e: Expr, rest: seq<Token>)
    requires IsOr(ts, e) && !Starts(rest, Key(AND))
    ensures Disjunction(ts + rest) == Disjuncts(e, rest)
    decreases |ts|, 2
  {
    hide IsAnd, Conjunction;
    if IsAnd(ts, e) {
      AndComplete(ts, e, rest);
    } else {
      hide Disjunction;
      var i: nat :| i < |ts| && ts[i] == Key(OR) && IsOr(ts[..i], e.left) && IsAnd(ts[i + 1..], e.right);
      SplitAt(ts, i, Key(OR), rest);
      OrComplete(ts[..i], e.left, [Key(OR)] + (ts[i + 1..] + rest));
      AndComplete(ts[i + 1..], e.right, rest);
    }
  }

  // ---- queries -----------------------------------------------------------------------------------------------

  /** A name, and for each name more a comma in front of it; or a star. */
  ghost predicate IsColumns(ts: seq<Token>, columns: seq<string>) {
    if ts == [Delimiter('*')] then columns == ["*"]
    else
      && columns != [] && |ts| == 2 * |columns| - 1
      && (forall i :: 0 <= i < |columns| ==> ts[2 * i] == Identifier(columns[i]))
      && forall i :: 0 <= i < |columns| - 1 ==> ts[2 * i + 1] == Delimiter(',')
  }

  ghost predicate IsWhere(ts: seq<Token>, filter: Option<Expr>) {
    if filter.None? then ts == [] else ts != [] && ts[0] == Key(WHERE) && IsOr(ts[1..], filter.value)
  }

  predicate IsOrderBy(ts: seq<Token>, orderBy: Option<OrderBy>) {
    match orderBy
    case None => ts == []
    case Some(o) =>
      || ts == [Key(ORDER), Key(BY), Identifier(o.column), Key(if o.direction == Descending then DESC else ASC)]
      || (o.direction == Ascending && ts == [Key(ORDER), Key(BY), Identifier(o.column)])
  }

  predicate IsLimit(ts: seq<Token>, limit: Option<nat>) {
    if limit.None? then ts == [] else ts == [Key(LIMIT), Number(limit.value)]
  }

  ghost predicate IsQueryOf(ts: seq<Token>, q: Query, columns: seq<Token>, filter: seq<Token>, orderBy: seq<Token>,
                            limit: seq<Token>)
  {
    && ts == [Key(SELECT)] + (columns + ([Key(FROM), Identifier(q.table)] + (filter + (orderBy + limit))))
    && IsColumns(columns, q.columns) && IsWhere(filter, q.filter) && IsOrderBy(orderBy, q.orderBy) && IsLimit(limit, q.limit)
  }

  ghost predicate IsQuery(ts: seq<Token>, q: Query) {
    exists columns, filter, orderBy, limit :: IsQueryOf(ts, q, columns, filter, orderBy, limit)
  }

  lemma {:induction false} MoreSound(ts: seq<Token>, j: nat, columns: seq<string>) returns (k: nat)
    requires j <= |ts| && ts[..j] != [Delimiter('*')] && IsColumns(ts[..j], columns) && MoreColumns(columns, ts[j..]).Ok?
    ensures Took(ts, MoreColumns(columns, ts[j..]), k)
    ensures ts[..k] != [Delimiter('*')] && IsColumns(ts[..k], MoreColumns(columns, ts[j..]).value.0)
    decreases |ts| - j
  {
    k := j;
    if Starts(ts[j..], Delimiter(',')) {
      var name := ts[j + 1];
      assert ts[j..][1..] == ts[j + 1..] && ts[j + 1..][1..] == ts[j + 2..];
      var more := columns + [name.name];
      forall i | 0 <= i < |more| ensures ts[..j + 2][2 * i] == Identifier(more[i]) {
        if i < |columns| { assert ts[..j][2 * i] == Identifier(columns[i]); }
      }
      forall i | 0 <= i < |more| - 1 ensures ts[..j + 2][2 * i + 1] == Delimiter(',') {
        if i < |columns| - 1 { assert ts[..j][2 * i + 1] == Delimiter(','); }
      }
      k := MoreSound(ts, j + 2, more);
    }
  }

  lemma ColumnsSound(ts: seq<Token>) returns (k: nat)
    requires Columns(ts).Ok?
    ensures Took(ts, Columns(ts), k) && IsColumns(ts[..k], Columns(ts).value.0)
  {
    if Starts(ts, Delimiter('*')) {
      k := 1;
      assert ts[..1] == [Delimiter('*')];
    } else {
      assert ts[..1] == [ts[0]];
      k := MoreSound(ts, 1, [ts[0].name]);
    }
  }

  /** After the first `j` names. */
  lemma NextName(ts: seq<Token>, j: nat, columns: seq<string>, rest: seq<Token>)
    requires ts != [Delimiter('*')] && IsColumns(ts, columns) && 0 < j < |columns|
    ensures var more := ts[2 * j - 1..] + rest;
      |more| >= 2 && more[0] == Delimiter(',') && more[1..] != [] && more[1..][0] == Identifier(columns[j])
      && more[1..][1..] == ts[2 * (j + 1) - 1..] + rest
  {
    assert ts[2 * (j - 1) + 1] == Delimiter(',') && ts[2 * j] == Identifier(columns[j]);
  }

  lemma NoMoreNames(ts: seq<Token>, columns: seq<string>, rest: seq<Token>)
    requires |ts| == 2 * |columns| - 1 && !Starts(rest, Delimiter(','))
    ensures MoreColumns(columns[..|columns|], ts[2 * |columns| - 1..] + rest) == Ok((columns, rest))
  {
    assert columns[..|columns|] == columns && ts[2 * |columns| - 1..] + rest == rest;
  }

  lemma {:induction false} MoreComplete(ts: seq<Token>, j: nat, columns: seq<string>, rest: seq<Token>)
    requires ts != [Delimiter('*')] && IsColumns(ts, columns) && 0 < j <= |columns| && !Starts(rest, Delimiter(','))
    ensures MoreColumns(columns[..j], ts[2 * j - 1..] + rest) == Ok((columns, rest))
    decreases |columns| - j
  {
    if j == |columns| {
      NoMoreNames(ts, columns, rest);
    } else {
      NextName(ts, j, columns, rest);
      MoreComplete(ts, j + 1, columns, rest);
      hide IsColumns;
      assert columns[..j] + [columns[j]] == columns[..j + 1];
      OneMore(columns[..j], columns[j], ts[2 * j - 1..] + rest);
    }
  }

  lemma OneMore(columns: seq<string>, name: string, ts: seq<Token>)
    requires |ts| >= 2 && ts[0] == Delimiter(',') && ts[1..][0] == Identifier(name)
    ensures MoreColumns(columns, ts) == MoreColumns(columns + [name], ts[1..][1..])
  {}

  lemma ColumnsComplete(ts: seq<Token>, columns: seq<string>, rest: seq<Token>)
    requires IsColumns(ts, columns) && !Starts(rest, Delimiter(','))
    ensures Columns(ts + rest) == Ok((columns, rest))
  {
    var all := ts + rest;
    if ts == [Delimiter('*')] {
      assert all[1..] == rest;
    } else {
      assert all[0] == ts[2 * 0] && all[1..] == ts[1..] + rest && columns[..1] == [columns[0]];
      MoreComplete(ts, 1, columns, rest);
    }
  }

  lemma WhereSound(ts: seq<Token>) returns (k: nat)
    requires Where(ts).Ok?
    ensures Took(ts, Where(ts), k) && IsWhere(ts[..k], Where(ts).value.0)
  {
    k := 0;
    if Starts(ts, Key(WHERE)) {
      var j := OrSound(ts[1..]);
      k := j + 1;
      assert ts[..k][1..] == ts[1..][..j];
    }
  }

  lemma OrderBySound(ts: seq<Token>) returns (k: nat)
    requires Ordering(ts).Ok?
    ensures Took(ts, Ordering(ts), k) && IsOrderBy(ts[..k], Ordering(ts).value.0)
  {
    k := if !Starts(ts, Key(ORDER)) then 0 else if Starts(ts[3..], Key(ASC)) || Starts(ts[3..], Key(DESC)) then 4 else 3;
    if k > 0 {
      assert ts[2..][1..] == ts[3..];
      assert ts[..3] == [Key(ORDER), Key(BY), ts[2]];
      if k == 4 { assert ts[3..][1..] == ts[4..] && ts[..4] == [Key(ORDER), Key(BY), ts[2], ts[3]]; }
    }
  }

  lemma LimitSound(ts: seq<Token>) returns (k: nat)
    requires Limit(ts).Ok?
    ensures Took(ts, Limit(ts), k) && IsLimit(ts[..k], Limit(ts).value.0)
  {
    k := if Starts(ts, Key(LIMIT)) then 2 else 0;
    if k == 2 { assert ts[..2] == [Key(LIMIT), ts[1]]; }
  }

  lemma Assembled(ts: seq<Token>, columns: seq<Token>, ts1: seq<Token>, table: string, filter: seq<Token>, ts3: seq<Token>,
                  orderBy: seq<Token>, limit: seq<Token>)
    requires ts != [] && ts[0] == Key(SELECT) && ts[1..] == columns + ts1
    requires |ts1| >= 2 && ts1[0] == Key(FROM) && ts1[1] == Identifier(table) && ts1[2..] == filter + ts3
    requires ts3 == orderBy + limit
    ensures ts == [Key(SELECT)] + (columns + ([Key(FROM), Identifier(table)] + (filter + (orderBy + limit))))
  {
    assert ts1 == [Key(FROM), Identifier(table)] + ts1[2..];
    assert ts == [Key(SELECT)] + ts[1..];
  }

  /** The clauses after the table. */
  lemma TailSound(ts: seq<Token>) returns (j: nat, k: nat)
    requires Where(ts).Ok? && Ordering(Where(ts).value.1).Ok?
    requires Limit(Ordering(Where(ts).value.1).value.1).Ok? && Limit(Ordering(Where(ts).value.1).value.1).value.1 == []
    ensures j <= |ts| && k <= |ts| - j
    ensures var r := Where(ts).value.1;
      && IsWhere(ts[..j], Where(ts).value.0) && IsOrderBy(ts[j..][..k], Ordering(r).value.0)
      && IsLimit(ts[j..][k..], Limit(Ordering(r).value.1).value.0)
  {
    hide Where, Ordering, Limit, IsWhere, IsOrderBy, IsLimit;
    j := WhereSound(ts);
    k := OrderBySound(ts[j..]);
    var l := LimitSound(ts[j..][k..]);
    assert ts[j..][k..][..l] == ts[j..][k..];
  }

  /** The steps of an accepting parse. */
  lemma QuerySteps(ts: seq<Token>) returns (ts1: seq<Token>)
    requires ParseQuery(ts).Ok?
    ensures ts != [] && ts[0] == Key(SELECT) && Columns(ts[1..]).Ok? && ts1 == Columns(ts[1..]).value.1
    ensures |ts1| >= 2 && ts1[0] == Key(FROM) && ts1[1].Identifier?
    ensures var ts2, q := ts1[2..], ParseQuery(ts).value;
      && Where(ts2).Ok? && Ordering(Where(ts2).value.1).Ok? && Limit(Ordering(Where(ts2).value.1).value.1).Ok?
      && Limit(Ordering(Where(ts2).value.1).value.1).value.1 == []
      && q == Query(Columns(ts[1..]).value.0, ts1[1].name, Where(ts2).value.0, Ordering(Where(ts2).value.1).value.0,
                    Limit(Ordering(Where(ts2).value.1).value.1).value.0)
  {
    hide Columns, Where, Ordering, Limit;
    ts1 := Columns(ts[1..]).value.1;
    assert ts1[1..][1..] == ts1[2..];
  }

  lemma Halves(ts: seq<Token>, i: nat)
    requires i <= |ts|
    ensures ts == ts[..i] + ts[i..]
  {}

  lemma QuerySound(ts: seq<Token>)
    requires ParseQuery(ts).Ok?
    ensures IsQuery(ts, ParseQuery(ts).value)
  {
    hide ParseQuery, Columns, Where, Ordering, Limit, IsColumns, IsWhere, IsOrderBy, IsLimit;
    var q := ParseQuery(ts).value;
    var ts1 := QuerySteps(ts);
    var i := ColumnsSound(ts[1..]);
    var ts2 := ts1[2..];
    var j, k := TailSound(ts2);
    var columns, filter, orderBy, limit := ts[1..][..i], ts2[..j], ts2[j..][..k], ts2[j..][k..];
    Halves(ts[1..], i);
    Halves(ts2, j);
    Halves(ts2[j..], k);
    Assembled(ts, columns, ts1, q.table, filter, ts2[j..], orderBy, limit);
    assert IsQueryOf(ts, q, columns, filter, orderBy, limit);
  }

  lemma WhereComplete(ts: seq<Token>, filter: Option<Expr>, rest: seq<Token>)
    requires IsWhere(ts, filter) && (rest == [] || rest[0] == Key(ORDER) || rest[0] == Key(LIMIT))
    ensures Where(ts + rest) == Ok((filter, rest))
  {
    if filter.Some? {
      assert (ts + rest)[1..] == ts[1..] + rest;
      OrComplete(ts[1..], filter.value, rest);
    } else {
      assert ts + rest == rest;
    }
  }

  lemma OrderByComplete(ts: seq<Token>, orderBy: Option<OrderBy>, rest: seq<Token>)
    requires IsOrderBy(ts, orderBy) && (rest == [] || rest[0] == Key(LIMIT))
    ensures Ordering(ts + rest) == Ok((orderBy, rest))
  {
    var all := ts + rest;
    if orderBy.Some? {
      assert all[2..][1..] == all[3..];
      if |ts| == 4 { assert all[3..][1..] == rest; } else { assert all[3..] == rest; }
    } else {
      assert all == rest;
    }
  }

  lemma LimitComplete(ts: seq<Token>, limit: Option<nat>)
    requires IsLimit(ts, limit)
    ensures Limit(ts) == Ok((limit, []))
  {
    if limit.Some? { assert ts[2..] == []; }
  }

  lemma QueryComplete(ts: seq<Token>, q: Query)
    requires IsQuery(ts, q)
    ensures ParseQuery(ts) == Ok(q)
  {
    hide Columns, Where, Ordering, Limit, IsColumns;
    var columns, filter, orderBy, limit :| IsQueryOf(ts, q, columns, filter, orderBy, limit);
    var ts4 := orderBy + limit;
    var ts3 := filter + ts4;
    var ts2 := [Key(FROM), Identifier(q.table)] + ts3;
    assert ts[1..] == columns + ts2 && ts2[1..][1..] == ts3;
    ColumnsComplete(columns, q.columns, ts2);
    WhereComplete(filter, q.filter, ts4);
    OrderByComplete(orderBy, q.orderBy, limit);
    LimitComplete(limit, q.limit);
  }

  /** The parser accepts exactly the token lists of the grammar, and each as what it is. */
  lemma ParseExactly(ts: seq<Token>, q: Query)
    ensures ParseQuery(ts) == Ok(q) <==> IsQuery(ts, q)
  {
    if ParseQuery(ts).Ok? { QuerySound(ts); }
    if IsQuery(ts, q) { QueryComplete(ts, q); }
  }
}
