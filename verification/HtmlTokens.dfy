// Whatever the parser accepts of a sequence of tags and texts, it prints back as it was.
module HtmlTokens {
  import opened Results
  import opened Html
  import opened HtmlParser

  datatype Token = TText(text: string) | TOpen(name: string, attrs: seq<(string, string)>) | TClose(name: string)

  predicate ValidToken(t: Token) {
    match t
    case TText(_) => true
    case TOpen(name, attrs) => ValidName(name) && ValidAttrs(attrs)
    case TClose(name) => ValidName(name)
  }

  function TokenText(t: Token): string {
    match t
    case TText(text) => EscapeText(text)
    case TOpen(name, attrs) => OpenTag(name, attrs)
    case TClose(name) => CloseTag(name)
  }

  function Written(ts: seq<Token>): string {
    if ts == [] then "" else TokenText(ts[0]) + Written(ts[1..])
  }

  lemma {:induction false} WrittenAppends(a: seq<Token>, b: seq<Token>)
    ensures Written(a + b) == Written(a) + Written(b)
  {
    hide TokenText;
    if a == [] {
      assert a + b == b && "" + Written(b) == Written(b);
    } else {
      assert (a + b)[0] == a[0] && (a + b)[1..] == a[1..] + b;
      WrittenAppends(a[1..], b);
      Regroup3(TokenText(a[0]), Written(a[1..]), Written(b));
    }
  }

  // ---- reading one token ----------------------------------------------------------------------

  /** The texts in front, as one. */
  function LeadingText(ts: seq<Token>): (string, nat) {
    if ts == [] || !ts[0].TText? then ("", 0)
    else
      var (text, j) := LeadingText(ts[1..]);
      (ts[0].text + text, j + 1)
  }

  lemma {:induction false} LeadingTextIsWritten(ts: seq<Token>)
    ensures var (text, j) := LeadingText(ts);
      && j <= |ts| && (j < |ts| ==> !ts[j].TText?) && (ts != [] && ts[0].TText? ==> j > 0)
      && Written(ts) == EscapeText(text) + Written(ts[j..])
  {
    hide EscapeText, OpenTag, CloseTag;
    if ts == [] || !ts[0].TText? {
      EscapeEmpty();
      assert ts[0..] == ts && "" + Written(ts) == Written(ts);
    } else {
      LeadingTextIsWritten(ts[1..]);
      var (text, j) := LeadingText(ts[1..]);
      assert ts[1..][j..] == ts[j + 1..];
      EscapeAppends(ts[0].text, text);
      Regroup3(EscapeText(ts[0].text), EscapeText(text), Written(ts[j + 1..]));
    }
  }

  lemma TagsStart(ts: seq<Token>)
    requires ts != [] ==> !ts[0].TText?
    ensures Written(ts) == "" || Written(ts)[0] == '<'
  {}

  lemma TextReads(t: string, more: string)
    requires t != "" && (more == "" || more[0] == '<')
    ensures ParseAll(EscapeText(t) + more)
         == if ParseAll(more).None? then None else Some(([HText(t)] + ParseAll(more).value.0, ParseAll(more).value.1))
  {
    hide EscapeText, Until, Unescape;
    TextBack(t, more);
    assert (EscapeText(t) + more)[0] != '<';
  }

  lemma ClosingEnds(s: string)
    requires "</" <= s
    ensures ParseAll(s) == Some(([], s))
  {}

  lemma ClosingSplits(name: string, more: string)
    requires ValidName(name)
    ensures (CloseTag(name) + more)[2..] == name + (">" + more)
    ensures NameLength((CloseTag(name) + more)[2..]) == |name| && (CloseTag(name) + more)[2..][..|name|] == name
  {
    assert CloseTag(name) + more == "</" + (name + (">" + more));
    NameIs(name, ">" + more);
  }

  /** A closing tag at the front of a text is the one that was written there. */
  lemma SameClosing(name: string, other: string, more: string)
    requires ValidName(name) && ValidName(other) && CloseTag(name) <= CloseTag(other) + more
    ensures name == other
  {
    hide CloseTag, NameLength;
    var s := CloseTag(other) + more;
    assert s == CloseTag(name) + s[|CloseTag(name)|..];
    ClosingSplits(other, more);
    ClosingSplits(name, s[|CloseTag(name)|..]);
  }

  // ---- print undoes parse -------------------------------------------------------------------------

  /** Where the parser stops, and what it has read until there. */
  ghost predicate ReadUpTo(ts: seq<Token>, hs: seq<Html>, rest: string, k: nat) {
    k <= |ts| && rest == Written(ts[k..]) && (k < |ts| ==> ts[k].TClose?) && RenderAll(hs) + rest == Written(ts)
  }

  ghost predicate AllValid(ts: seq<Token>) {
    forall t <- ts :: ValidToken(t)
  }

  lemma Drops(ts: seq<Token>, j: nat, k: nat)
    requires j <= |ts| && k <= |ts| - j
    ensures ts[j..][k..] == ts[j + k..]
    ensures AllValid(ts) ==> AllValid(ts[j..])
  {}

  /** For every sequence of tokens: what the parser makes of its text, followed by what it leaves,
      prints as that text. */
  lemma {:induction false} ParsedPrintsBack(ts: seq<Token>) returns (k: nat)
    requires AllValid(ts) && ParseAll(Written(ts)).Some?
    ensures var (hs, rest) := ParseAll(Written(ts)).value; ReadUpTo(ts, hs, rest, k)
    decreases |ts|
  {
    hide ParseAll, ParseElement, TokenText, RenderAll, ValidToken;
    if ts == [] {
      k := 0;
      NothingReads();
    } else if ts[0].TText? {
      k := TextPrintsBack(ts);
    } else if ts[0].TClose? {
      k := 0;
      ClosingPrintsBack(ts);
    } else {
      k := ElementPrintsBack(ts);
    }
  }

  lemma NothingReads()
    ensures ParseAll("") == Some(([], "")) && RenderAll([]) + "" == "" && Written([]) == ""
  {}

  lemma ClosingPrintsBack(ts: seq<Token>)
    requires ts != [] && ts[0].TClose?
    ensures ParseAll(Written(ts)).Some?
    ensures var (hs, rest) := ParseAll(Written(ts)).value; ReadUpTo(ts, hs, rest, 0)
  {
    hide ParseAll;
    var s := Written(ts);
    CloseTagEnds(ts[0].name, Written(ts[1..]));
    assert s != "" by { assert CloseTag(ts[0].name)[0] == '<'; }
    ClosingEnds(s);
    assert ts[0..] == ts && RenderAll([]) + s == s;
  }

  lemma {:induction false} TextPrintsBack(ts: seq<Token>) returns (k: nat)
    requires AllValid(ts) && ParseAll(Written(ts)).Some? && ts != [] && ts[0].TText?
    ensures var (hs, rest) := ParseAll(Written(ts)).value; ReadUpTo(ts, hs, rest, k)
    decreases |ts|, 0
  {
    hide ParseAll, TokenText, EscapeText, ValidToken, Written;
    var (text, j) := LeadingText(ts);
    LeadingTextIsWritten(ts);
    var more := Written(ts[j..]);
    TagsStart(ts[j..]);
    Drops(ts, j, 0);
    if text == "" {
      EscapeEmpty();
      assert "" + more == more;
      var k' := ParsedPrintsBack(ts[j..]);
      Drops(ts, j, k');
      k := j + k';
    } else {
      TextReads(text, more);
      var k' := ParsedPrintsBack(ts[j..]);
      Drops(ts, j, k');
      k := j + k';
      var (hs, rest) := ParseAll(more).value;
      RenderCons(HText(text), hs);
      Regroup3(EscapeText(text), RenderAll(hs), rest);
    }
  }

  lemma {:induction false} ElementPrintsBack(ts: seq<Token>) returns (k: nat)
    requires AllValid(ts) && ParseAll(Written(ts)).Some? && ts != [] && ts[0].TOpen?
    ensures var (hs, rest) := ParseAll(Written(ts)).value; ReadUpTo(ts, hs, rest, k)
    decreases |ts|, 0
  {
    hide ParseAll, ParseElement, AfterOpenTag, OpenTag, ValidToken, Written, ReadUpTo;
    Drops(ts, 1, 0);
    OpeningReads(ts);
    if ts[0].name in VOID_TAGS {
      VoidReads(ts);
      var k' := ParsedPrintsBack(ts[1..]);
      k := 1 + k';
      VoidPrintsBack(ts, k');
    } else {
      ChildrenRead(ts);
      var k1 := ParsedPrintsBack(ts[1..]);
      ParentCloses(ts, k1);
      Drops(ts, k1 + 2, 0);
      var k' := ParsedPrintsBack(ts[k1 + 2..]);
      k := k1 + 2 + k';
      ElementText(ts, k1, k');
    }
  }

  /** An opening tag in front is read as one. */
  lemma OpeningReads(ts: seq<Token>)
    requires AllValid(ts) && ParseAll(Written(ts)).Some? && ts != [] && ts[0].TOpen?
    ensures var first := AfterOpenTag(ts[0].name, ts[0].attrs, Written(ts[1..]));
      && first.Some? && ParseAll(first.value.1).Some?
      && ParseAll(Written(ts)).value
         == ([first.value.0] + ParseAll(first.value.1).value.0, ParseAll(first.value.1).value.1)
  {
    hide ParseAll, ParseElement, AfterOpenTag, OpenTag, ValidName, ValidAttrs;
    ValidOpen(ts[0]);
    OpenTagRead(ts[0].name, ts[0].attrs, Written(ts[1..]));
    ElementReads(Written(ts));
  }

  lemma VoidReads(ts: seq<Token>)
    requires ts != [] && ts[0].TOpen? && ts[0].name in VOID_TAGS
    ensures AfterOpenTag(ts[0].name, ts[0].attrs, Written(ts[1..])) == Some((HElem(ts[0].name, ts[0].attrs, []), Written(ts[1..])))
  {
    hide Written;
  }

  lemma ChildrenRead(ts: seq<Token>)
    requires ts != [] && ts[0].TOpen? && ts[0].name !in VOID_TAGS
    requires AfterOpenTag(ts[0].name, ts[0].attrs, Written(ts[1..])).Some?
    ensures ParseAll(Written(ts[1..])).Some?
    ensures var (children, closing) := ParseAll(Written(ts[1..])).value;
      && CloseTag(ts[0].name) <= closing
      && AfterOpenTag(ts[0].name, ts[0].attrs, Written(ts[1..]))
         == Some((HElem(ts[0].name, ts[0].attrs, children), closing[|CloseTag(ts[0].name)|..]))
  {
    hide Written, ParseAll, CloseTag;
  }

  /** The children stop at their parent's own closing tag. */
  lemma ParentCloses(ts: seq<Token>, k: nat)
    requires AllValid(ts) && ts != [] && ts[0].TOpen? && ParseAll(Written(ts[1..])).Some?
    requires var (children, closing) := ParseAll(Written(ts[1..])).value;
      ReadUpTo(ts[1..], children, closing, k) && CloseTag(ts[0].name) <= closing
    ensures k + 2 <= |ts|
    ensures var closing := ParseAll(Written(ts[1..])).value.1;
      && closing == CloseTag(ts[0].name) + Written(ts[k + 2..])
      && closing[|CloseTag(ts[0].name)|..] == Written(ts[k + 2..])
  {
    hide ParseAll, ReadUpTo, Written, ValidToken, CloseTag;
    var (children, closing) := ParseAll(Written(ts[1..])).value;
    ValidOpen(ts[0]);
    Drops(ts, 1, 0);
    ClosedBy(ts[1..], ts[0].name, children, closing, k);
    Drops(ts, 1, k + 1);
  }

  lemma ValidOpen(t: Token)
    requires t.TOpen? && ValidToken(t)
    ensures ValidName(t.name) && ValidAttrs(t.attrs)
  {}

  lemma VoidPrintsBack(ts: seq<Token>, k: nat)
    requires ts != [] && ts[0].TOpen? && ts[0].name in VOID_TAGS && ParseAll(Written(ts[1..])).Some?
    requires var (hs, rest) := ParseAll(Written(ts[1..])).value; ReadUpTo(ts[1..], hs, rest, k)
    ensures var (hs, rest) := ParseAll(Written(ts[1..])).value;
      ReadUpTo(ts, [HElem(ts[0].name, ts[0].attrs, [])] + hs, rest, 1 + k)
  {
    hide ParseAll, OpenTag;
    var (hs, rest) := ParseAll(Written(ts[1..])).value;
    Drops(ts, 1, k);
    RenderCons(HElem(ts[0].name, ts[0].attrs, []), hs);
    var open := OpenTag(ts[0].name, ts[0].attrs);
    assert open + "" == open;
    Regroup3(open, RenderAll(hs), rest);
  }

  lemma ClosedBy(ts: seq<Token>, name: string, children: seq<Html>, closing: string, k: nat)
    requires AllValid(ts) && ValidName(name) && ReadUpTo(ts, children, closing, k) && CloseTag(name) <= closing
    ensures k < |ts| && ts[k] == TClose(name) && closing == CloseTag(name) + Written(ts[k + 1..])
    ensures closing[|CloseTag(name)|..] == Written(ts[k + 1..])
  {
    hide RenderAll;
    assert CloseTag(name)[0] == '<';
    assert k < |ts| && ValidToken(ts[k]);
    assert ts[k..][1..] == ts[k + 1..];
    SameClosing(name, ts[k].name, Written(ts[k + 1..]));
    Cut(CloseTag(name), Written(ts[k + 1..]));
  }

  lemma ElementText(ts: seq<Token>, k1: nat, k: nat)
    requires ts != [] && ts[0].TOpen? && ts[0].name !in VOID_TAGS && k1 + 2 <= |ts|
    requires ParseAll(Written(ts[1..])).Some? && ParseAll(Written(ts[k1 + 2..])).Some?
    requires var (children, closing) := ParseAll(Written(ts[1..])).value;
      ReadUpTo(ts[1..], children, closing, k1) && closing == CloseTag(ts[0].name) + Written(ts[k1 + 2..])
    requires var (hs, rest) := ParseAll(Written(ts[k1 + 2..])).value; ReadUpTo(ts[k1 + 2..], hs, rest, k)
    ensures var (hs, rest) := ParseAll(Written(ts[k1 + 2..])).value;
      ReadUpTo(ts, [HElem(ts[0].name, ts[0].attrs, ParseAll(Written(ts[1..])).value.0)] + hs, rest, k1 + 2 + k)
  {
    hide OpenTag, CloseTag, ParseAll;
    var (children, closing) := ParseAll(Written(ts[1..])).value;
    var (hs, rest) := ParseAll(Written(ts[k1 + 2..])).value;
    var h := HElem(ts[0].name, ts[0].attrs, children);
    Drops(ts, k1 + 2, k);
    RenderCons(h, hs);
    var open, close := OpenTag(ts[0].name, ts[0].attrs), CloseTag(ts[0].name);
    Regroup3(open, RenderAll(children) + close, RenderAll(hs) + rest);
    Regroup3(RenderAll(children), close, RenderAll(hs) + rest);
    Regroup3(open + (RenderAll(children) + close), RenderAll(hs), rest);
  }

  /** So if the parser reads the whole text, it prints back as it was. */
  lemma WhollyParsedPrintsBack(ts: seq<Token>, hs: seq<Html>)
    requires AllValid(ts) && ParseAll(Written(ts)) == Some((hs, ""))
    ensures RenderAll(hs) == Written(ts)
  {
    hide ParseAll, RenderAll;
    var k := ParsedPrintsBack(ts);
    assert RenderAll(hs) + "" == RenderAll(hs);
  }
}
