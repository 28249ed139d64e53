// evals/corpus/query/lexer.ts: one scanning loop over the text.
module QueryLexer {
  import opened Results
  import opened Digits
  import opened Whitespace

  datatype Keyword = SELECT | FROM | WHERE | ORDER | BY | AND | OR | ASC | DESC | LIMIT

  datatype CmpOp = Eq | Ne | Lt | Gt | Le | Ge

  datatype Token =
    | Key(keyword: Keyword)
    | Identifier(name: string)
    | Number(n: nat)
    | Text(text: string)
    | Operator(op: CmpOp)
    | Delimiter(c: char)
    | NullToken

  datatype LexError = UnterminatedString | UnexpectedCharacter(c: char)

  predicate IsIdentStart(c: char) { 'a' <= c <= 'z' || 'A' <= c <= 'Z' || c == '_' }

  predicate IsIdentPart(c: char) { IsIdentStart(c) || IsDigit(c) }

  predicate IsDelimiter(c: char) { c == '(' || c == ')' || c == ',' || c == '*' }

  predicate NotQuote(c: char) { c != '\'' }

  function UpperChar(c: char): char {
    if 'a' <= c <= 'z' then c - 'a' + 'A' else c
  }

  function Upper(s: string): string {
    seq(|s|, i requires 0 <= i < |s| => UpperChar(s[i]))
  }

  function KeywordText(k: Keyword): string {
    match k
    case SELECT => "SELECT" case FROM => "FROM" case WHERE => "WHERE" case ORDER => "ORDER" case BY => "BY"
    case AND => "AND" case OR => "OR" case ASC => "ASC" case DESC => "DESC" case LIMIT => "LIMIT"
  }

  function OpText(op: CmpOp): string {
    match op
    case Eq => "=" case Ne => "!=" case Lt => "<" case Gt => ">" case Le => "<=" case Ge => ">="
  }

  /** A word of identifier characters: keyword, `null`, or identifier as written. */
  function WordToken(word: string): Token {
    var upper := Upper(word);
    if upper == "SELECT" then Key(SELECT)
    else if upper == "FROM" then Key(FROM)
    else if upper == "WHERE" then Key(WHERE)
    else if upper == "ORDER" then Key(ORDER)
    else if upper == "BY" then Key(BY)
    else if upper == "AND" then Key(AND)
    else if upper == "OR" then Key(OR)
    else if upper == "ASC" then Key(ASC)
    else if upper == "DESC" then Key(DESC)
    else if upper == "LIMIT" then Key(LIMIT)
    else if upper == "NULL" then NullToken
    else Identifier(word)
  }

  // ---- the scanner as a function of the remaining text ----------------------------------

  datatype Step = Skip | Found(token: Token, length: nat) | Fail(error: LexError)

  /** Length of the longest prefix of characters satisfying `p`. */
  function Run(s: string, p: char -> bool): (n: nat)
    ensures n <= |s| && (forall i :: 0 <= i < n ==> p(s[i])) && (n < |s| ==> !p(s[n]))
  {
    if s == [] || !p(s[0]) then 0 else 1 + Run(s[1..], p)
  }

  lemma {:induction false} RunIs(s: string, p: char -> bool, n: nat)
    requires n <= |s| && (forall i :: 0 <= i < n ==> p(s[i])) && (n < |s| ==> !p(s[n]))
    ensures Run(s, p) == n
  {
    var m := Run(s, p);
    var atM, atN := m < |s| && p(s[m]), n < |s| && p(s[n]);
  }

  /** Operators, two characters first, and delimiters; `Skip` when there is none. */
  function Symbol(s: string): (step: Step)
    requires s != ""
    ensures step.Skip? || (step.Found? && 0 < step.length <= |s|)
  {
    var c := s[0];
    if "!=" <= s then Found(Operator(Ne), 2)
    else if "<=" <= s then Found(Operator(Le), 2)
    else if ">=" <= s then Found(Operator(Ge), 2)
    else if c == '=' then Found(Operator(Eq), 1)
    else if c == '<' then Found(Operator(Lt), 1)
    else if c == '>' then Found(Operator(Gt), 1)
    else if IsDelimiter(c) then Found(Delimiter(c), 1)
    else Skip
  }

  function ScanOne(s: string): (step: Step)
    requires s != ""
    ensures step.Found? ==> 0 < step.length <= |s|
  {
    var c := s[0];
    if IsSpace(c) then Skip
    else if c == '\'' then
      var n := Run(s[1..], NotQuote);
      if n == |s| - 1 then Fail(UnterminatedString) else Found(Text(s[1..1 + n]), n + 2)
    else if Symbol(s).Found? then Symbol(s)
    else if IsDigit(c) then
      var n := Run(s, IsDigit);
      Found(Number(DigitsValue(s[..n])), n)
    else if IsIdentStart(c) then
      var n := Run(s, IsIdentPart);
      Found(WordToken(s[..n]), n)
    else Fail(UnexpectedCharacter(c))
  }

  function Prepend(ts: seq<Token>, r: Result<seq<Token>, LexError>): Result<seq<Token>, LexError> {
    match r
    case Ok(us) => Ok(ts + us)
    case Err(e) => Err(e)
  }

  function Scan(s: string): Result<seq<Token>, LexError>
    decreases |s|
  {
    if s == "" then Ok([])
    else
      match ScanOne(s)
      case Skip => Scan(s[1..])
      case Found(t, n) => Prepend([t], Scan(s[n..]))
      case Fail(e) => Err(e)
  }

  // ---- the loop ---------------------------------------------------------------------------

  /** What one round of the loop does to the scan still owed. */
  lemma Round(input: string, i: nat, ts: seq<Token>)
    requires i < |input| && Scan(input) == Prepend(ts, Scan(input[i..]))
    ensures match ScanOne(input[i..])
      case Skip => Scan(input) == Prepend(ts, Scan(input[i + 1..]))
      case Found(t, n) => Scan(input) == Prepend(ts + [t], Scan(input[i + n..]))
      case Fail(e) => Scan(input) == Err(e)
  {
    hide ScanOne, Prepend;
    var rest := input[i..];
    match ScanOne(rest)
    case Skip => assert rest[1..] == input[i + 1..];
    case Found(t, n) =>
      assert rest[n..] == input[i + n..];
      PrependAppends(ts, t, Scan(input[i + n..]));
    case Fail(e) => assert Prepend(ts, Err(e)) == Err(e) by { PrependFails(ts, e); }
  }

  lemma PrependAppends(ts: seq<Token>, t: Token, r: Result<seq<Token>, LexError>)
    ensures Prepend(ts, Prepend([t], r)) == Prepend(ts + [t], r)
  {
    if r.Ok? { assert ts + ([t] + r.value) == ts + [t] + r.value; }
  }

  lemma PrependFails(ts: seq<Token>, e: LexError)
    ensures Prepend(ts, Err(e)) == Err(e)
  {}

  lemma ScanEnds(r: Result<seq<Token>, LexError>, ts: seq<Token>)
    ensures Prepend([], r) == r
    ensures Prepend(ts, Scan("")) == Ok(ts)
  {
    if r.Ok? { assert [] + r.value == r.value; }
    assert Scan("") == Ok([]) && ts + [] == ts;
  }

  /** The loop of `lex` computes `Scan`, and stops on every input. */
  method Lex(input: string) returns (r: Result<seq<Token>, LexError>)
    ensures r == Scan(input)
  {
    hide Scan, IsSpace, WordToken, DigitsValue, Symbol, Run;
    var tokens: seq<Token> := [];
    var i := 0;
    assert input[0..] == input;
    ScanEnds(Scan(input), []);
    while i < |input|
      invariant i <= |input|
      invariant Scan(input) == Prepend(tokens, Scan(input[i..]))
    {
      var c := input[i];
      ghost var rest := input[i..];
      Round(input, i, tokens);
      if IsSpace(c) {
        i := i + 1;
        continue;
      }
      if c == '\'' {
        var j := LexRun(input, i + 1, NotQuote);
        assert rest[1..] == input[i + 1..];
        if j >= |input| {
          return Err(UnterminatedString);
        }
        assert rest[1..j - i] == input[i + 1..j];
        tokens, i := tokens + [Text(input[i + 1..j])], j + 1;
        continue;
      }
      var symbol := LexSymbol(input, i);
      if symbol.Found? {
        tokens, i := tokens + [symbol.token], i + symbol.length;
        continue;
      }
      if IsDigit(c) {
        var j := LexRun(input, i, IsDigit);
        tokens, i := tokens + [Number(DigitsValue(input[i..j]))], j;
        continue;
      }
      if IsIdentStart(c) {
        var j := LexRun(input, i, IsIdentPart);
        tokens, i := tokens + [WordToken(input[i..j])], j;
        continue;
      }
      return Err(UnexpectedCharacter(c));
    }
    assert input[i..] == "";
    ScanEnds(Ok(tokens), tokens);
    return Ok(tokens);
  }

  method LexSymbol(input: string, i: nat) returns (step: Step)
    requires i < |input|
    ensures step == Symbol(input[i..])
  {
    ghost var rest := input[i..];
    var c := input[i];
    if i + 1 < |input| {
      var two := input[i..i + 2];
      assert two == rest[..2];
      if two == "!=" { return Found(Operator(Ne), 2); }
      if two == "<=" { return Found(Operator(Le), 2); }
      if two == ">=" { return Found(Operator(Ge), 2); }
    }
    if c == '=' { return Found(Operator(Eq), 1); }
    if c == '<' { return Found(Operator(Lt), 1); }
    if c == '>' { return Found(Operator(Gt), 1); }
    if IsDelimiter(c) { return Found(Delimiter(c), 1); }
    return Skip;
  }

  /** The inner loops: over a string's characters, over digits, over identifier characters. */
  method LexRun(input: string, i: nat, p: char -> bool) returns (j: nat)
    requires i <= |input|
    ensures i <= j <= |input| && j - i == Run(input[i..], p) && input[i..j] == input[i..][..j - i]
    ensures forall k :: i <= k < j ==> p(input[k])
  {
    j := i;
    while j < |input| && p(input[j])
      invariant i <= j <= |input|
      invariant forall k :: i <= k < j ==> p(input[k])
    {
      j := j + 1;
    }
    RunIs(input[i..], p, j - i);
  }

  // ---- spelling ---------------------------------------------------------------------------

  predicate IsWord(s: string) {
    s != "" && IsIdentStart(s[0]) && forall c <- s :: IsIdentPart(c)
  }

  /** The ways a token may be written: keywords and `null` in any letter case, numbers with
      leading zeros, strings without a quote inside. */
  predicate Spells(word: string, t: Token) {
    match t
    case Key(k) => IsWord(word) && Upper(word) == KeywordText(k)
    case NullToken => IsWord(word) && Upper(word) == "NULL"
    case Identifier(name) => word == name && IsWord(word) && WordToken(word) == t
    case Number(n) => word != "" && (forall c <- word :: IsDigit(c)) && DigitsValue(word) == n
    case Text(text) => word == "'" + text + "'" && '\'' !in text
    case Operator(op) => word == OpText(op)
    case Delimiter(c) => word == [c] && IsDelimiter(c)
  }

  predicate IsGap(s: string) {
    s != "" && forall c <- s :: IsSpace(c)
  }

  /** `gap word gap word …` with any amount of white space in each gap. */
  ghost predicate Spelled(s: string, ts: seq<Token>)
    decreases |ts|
  {
    if ts == [] then s == "" || IsGap(s)
    else exists g: nat, n: nat :: SpelledAt(s, ts, g, n)
  }

  /** The first word starts at `g` and is `n` long; what follows it starts with white space. */
  ghost predicate SpelledAt(s: string, ts: seq<Token>, g: nat, n: nat)
    requires ts != []
    decreases |ts|, 0
  {
    && g + n <= |s|
    && (g == 0 || IsGap(s[..g]))
    && Spells(s[g..g + n], ts[0])
    && (g + n < |s| ==> IsSpace(s[g + n]))
    && Spelled(s[g + n..], ts[1..])
  }

  predicate IsMark(c: char) { IsDelimiter(c) || c == '\'' || c == '=' || c == '!' || c == '<' || c == '>' }

  /** The classes of characters are disjoint. */
  lemma Classes(c: char)
    ensures IsSpace(c) ==> !IsIdentPart(c) && !IsDigit(c) && !IsMark(c)
    ensures IsDigit(c) ==> !IsIdentStart(c)
    ensures IsIdentPart(c) ==> !IsMark(c)
  {}

  lemma WordIsItsToken(word: string, t: Token)
    requires (t.Key? || t.NullToken? || t.Identifier?) && Spells(word, t)
    ensures WordToken(word) == t
  {}

  /** A word followed by white space or the end is scanned whole, as its token. */
  lemma ScanWord(s: string, n: nat, t: Token)
    requires n <= |s| && Spells(s[..n], t) && (n < |s| ==> IsSpace(s[n]))
    ensures s != "" && ScanOne(s) == Found(t, n)
  {
    hide IsSpace, WordToken, Upper, KeywordText;
    var word := s[..n];
    assert forall i :: 0 <= i < n ==> s[i] == word[i];
    if n < |s| { Classes(s[n]); }
    match t {
      case Number(_) => ScanNumber(s, n, t);
      case Text(text) => ScanText(s, n, t);
      case Operator(op) => ScanOperator(s, n, t);
      case Delimiter(c) => Classes(c);
      case _ => ScanIdentifier(s, n, t);
    }
  }

  lemma ScanNumber(s: string, n: nat, t: Token)
    requires n <= |s| && t.Number? && Spells(s[..n], t) && (n < |s| ==> IsSpace(s[n]))
    ensures s != "" && ScanOne(s) == Found(t, n)
  {
    hide IsSpace, WordToken;
    var word := s[..n];
    forall i | 0 <= i < n ensures IsDigit(s[i]) { assert s[i] == word[i] && word[i] in word; }
    if n < |s| { Classes(s[n]); }
    Classes(s[0]);
    RunIs(s, IsDigit, n);
  }

  lemma ScanText(s: string, n: nat, t: Token)
    requires n <= |s| && t.Text? && Spells(s[..n], t)
    ensures s != "" && ScanOne(s) == Found(t, n)
  {
    hide IsSpace, WordToken;
    var word, text := s[..n], t.text;
    assert s[0] == word[0] == '\'' && s[n - 1] == word[n - 1] == '\'';
    Classes('\'');
    forall i | 0 <= i < |text| ensures s[1..][i] == text[i] && text[i] != '\'' {
      assert s[1..][i] == word[i + 1] && text[i] in text;
    }
    RunIs(s[1..], NotQuote, |text|);
    assert s[1..1 + |text|] == text;
  }

  lemma ScanOperator(s: string, n: nat, t: Token)
    requires n <= |s| && t.Operator? && Spells(s[..n], t) && (n < |s| ==> IsSpace(s[n]))
    ensures s != "" && ScanOne(s) == Found(t, n)
  {
    hide IsSpace, WordToken;
    var word := s[..n];
    assert forall i :: 0 <= i < n ==> s[i] == word[i];
    Classes(s[0]);
    if n < |s| { Classes(s[n]); }
  }

  lemma ScanIdentifier(s: string, n: nat, t: Token)
    requires 0 < n <= |s| && (t.Key? || t.NullToken? || t.Identifier?) && Spells(s[..n], t) && (n < |s| ==> IsSpace(s[n]))
    ensures ScanOne(s) == Found(t, n)
  {
    hide IsSpace, WordToken, Upper, KeywordText;
    var word := s[..n];
    forall i | 0 <= i < n ensures IsIdentPart(s[i]) { assert s[i] == word[i] && word[i] in word; }
    if n < |s| { Classes(s[n]); }
    Classes(s[0]);
    RunIs(s, IsIdentPart, n);
    WordIsItsToken(word, t);
  }

  lemma {:induction false} SkipGap(s: string, g: nat)
    requires g <= |s| && forall i :: 0 <= i < g ==> IsSpace(s[i])
    ensures Scan(s) == Scan(s[g..])
    decreases g
  {
    hide IsSpace;
    if g > 0 {
      SkipGap(s[1..], g - 1);
      assert s[1..][g - 1..] == s[g..];
    } else {
      assert s[0..] == s;
    }
  }

  /** However a token list is spelled and spaced, scanning gives it back. */
  lemma {:induction false} ScanSpelled(s: string, ts: seq<Token>)
    requires Spelled(s, ts)
    ensures Scan(s) == Ok(ts)
    decreases |ts|
  {
    hide ScanOne, IsSpace, Spells;
    if ts == [] {
      assert forall i :: 0 <= i < |s| ==> s[i] in s;
      SkipGap(s, |s|);
    } else {
      var g: nat, n: nat :| SpelledAt(s, ts, g, n);
      assert forall i :: 0 <= i < g ==> s[..g][i] in s[..g];
      SkipGap(s, g);
      var rest := s[g..];
      assert rest[..n] == s[g..g + n] && rest[n..] == s[g + n..];
      ScanWord(rest, n, ts[0]);
      ScanSpelled(s[g + n..], ts[1..]);
      assert ts == [ts[0]] + ts[1..];
    }
  }
}
