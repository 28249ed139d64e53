// The markup that packages/chrome-extension/src/snapshot.ts writes.
module Html {
  /** Sanitized markup. */
  datatype Html = HText(text: string) | HElem(name: string, attrs: seq<(string, string)>, children: seq<Html>)

  const VOID_TAGS := {"br", "hr", "img", "wbr"}

  // ---- escaping ---------------------------------------------------------------------------

  /** `s.replace(/c/gu, with)` */
  function ReplaceChar(s: string, c: char, with: string): string {
    if s == "" then "" else (if s[0] == c then with else [s[0]]) + ReplaceChar(s[1..], c, with)
  }

  /** Three passes, ampersands first. */
  function EscapeText(s: string): string {
    ReplaceChar(ReplaceChar(ReplaceChar(s, '&', "&amp;"), '<', "&lt;"), '>', "&gt;")
  }

  function EscapeAttr(s: string): string {
    ReplaceChar(EscapeText(s), '"', "&quot;")
  }

  function Entity(c: char): string {
    if c == '&' then "&amp;"
    else if c == '<' then "&lt;"
    else if c == '>' then "&gt;"
    else if c == '"' then "&quot;"
    else [c]
  }

  /** One pass over characters; quotes only in attribute values. */
  function EscapeOnce(s: string, quotes: bool): string {
    if s == "" then ""
    else (if s[0] == '"' && !quotes then [s[0]] else Entity(s[0])) + EscapeOnce(s[1..], quotes)
  }

  function Unescape(s: string): string {
    if s == "" then ""
    else if "&amp;" <= s then "&" + Unescape(s[5..])
    else if "&lt;" <= s then "<" + Unescape(s[4..])
    else if "&gt;" <= s then ">" + Unescape(s[4..])
    else if "&quot;" <= s then "\"" + Unescape(s[6..])
    else [s[0]] + Unescape(s[1..])
  }

  lemma {:induction false} ReplaceAppends(a: string, b: string, c: char, with: string)
    ensures ReplaceChar(a + b, c, with) == ReplaceChar(a, c, with) + ReplaceChar(b, c, with)
  {
    if a == "" {
      assert a + b == b;
    } else {
      assert (a + b)[1..] == a[1..] + b;
      ReplaceAppends(a[1..], b, c, with);
    }
  }

  lemma {:induction false} ReplaceNothing(s: string, c: char, with: string)
    requires c !in s
    ensures ReplaceChar(s, c, with) == s
  {
    if s != "" {
      assert s[0] in s;
      ReplaceNothing(s[1..], c, with);
    }
  }

  lemma ReplaceOne(c: char, d: char, with: string)
    ensures ReplaceChar([c], d, with) == if c == d then with else [c]
  {
    assert [c][1..] == "" && with + "" == with;
  }

  /** No entity contains a character that a later pass replaces. */
  lemma EntityOfOne(c: char)
    ensures EscapeText([c]) == if c == '"' then [c] else Entity(c)
    ensures EscapeAttr([c]) == Entity(c)
  {
    hide ReplaceChar;
    ReplaceOne(c, '&', "&amp;");
    ReplaceOne(c, '<', "&lt;");
    ReplaceOne(c, '>', "&gt;");
    ReplaceOne(c, '"', "&quot;");
    if c == '&' {
      ReplaceNothing("&amp;", '<', "&lt;");
      ReplaceNothing("&amp;", '>', "&gt;");
      ReplaceNothing("&amp;", '"', "&quot;");
    } else if c == '<' {
      ReplaceNothing("&lt;", '>', "&gt;");
      ReplaceNothing("&lt;", '"', "&quot;");
    } else if c == '>' {
      ReplaceNothing("&gt;", '"', "&quot;");
    }
  }

  lemma EscapeAppends(a: string, b: string)
    ensures EscapeText(a + b) == EscapeText(a) + EscapeText(b)
    ensures EscapeAttr(a + b) == EscapeAttr(a) + EscapeAttr(b)
  {
    ReplaceAppends(a, b, '&', "&amp;");
    var x, y := ReplaceChar(a, '&', "&amp;"), ReplaceChar(b, '&', "&amp;");
    ReplaceAppends(x, y, '<', "&lt;");
    var x', y' := ReplaceChar(x, '<', "&lt;"), ReplaceChar(y, '<', "&lt;");
    ReplaceAppends(x', y', '>', "&gt;");
    ReplaceAppends(EscapeText(a), EscapeText(b), '"', "&quot;");
  }

  /** The passes in their order come to one pass. */
  lemma {:induction false} PassesAreOne(s: string)
    ensures EscapeText(s) == EscapeOnce(s, false) && EscapeAttr(s) == EscapeOnce(s, true)
  {
    hide EscapeText, EscapeAttr;
    if s == "" {
      assert EscapeText("") == "" && EscapeAttr("") == "" by { EscapeEmpty(); }
    } else {
      PassesAreOne(s[1..]);
      EntityOfOne(s[0]);
      EscapeAppends([s[0]], s[1..]);
      assert [s[0]] + s[1..] == s;
    }
  }

  lemma EscapeEmpty()
    ensures EscapeText("") == "" && EscapeAttr("") == ""
  {}

  lemma {:induction false} UnescapeUndoes(s: string, quotes: bool)
    ensures Unescape(EscapeOnce(s, quotes)) == s
    ensures forall c <- EscapeOnce(s, quotes) :: c != '<' && c != '>' && (quotes ==> c != '"')
  {
    if s != "" {
      UnescapeUndoes(s[1..], quotes);
      var e, rest := if s[0] == '"' && !quotes then [s[0]] else Entity(s[0]), EscapeOnce(s[1..], quotes);
      assert (e + rest)[|e|..] == rest;
      UnescapeEntity(e, rest, s[0]);
      assert [s[0]] + s[1..] == s;
    }
  }

  lemma UnescapeEntity(e: string, rest: string, c: char)
    requires e == Entity(c) || (c == '"' && e == [c])
    ensures Unescape(e + rest) == [c] + Unescape(rest)
    ensures forall x <- e :: x != '<' && x != '>' && (e == Entity(c) ==> x != '"')
  {
    var s := e + rest;
    assert s[|e|..] == rest;
    if e == [c] {
      assert s[0] == c;
    } else {
      assert e <= s;
      EntitiesDiffer(e, s);
    }
  }

  lemma EntitiesDiffer(e: string, s: string)
    requires (e == "&amp;" || e == "&lt;" || e == "&gt;" || e == "&quot;") && e <= s
    ensures "&amp;" <= s <==> e == "&amp;"
    ensures "&lt;" <= s <==> e == "&lt;"
    ensures "&gt;" <= s <==> e == "&gt;"
    ensures "&quot;" <= s <==> e == "&quot;"
  {
    assert s[1] == e[1];
  }

  // ---- rendering --------------------------------------------------------------------------

  function RenderAttr(a: (string, string)): string {
    " " + (a.0 + ("=\"" + (EscapeAttr(a.1) + "\"")))
  }

  function RenderAttrs(attrs: seq<(string, string)>): string {
    if attrs == [] then "" else RenderAttr(attrs[0]) + RenderAttrs(attrs[1..])
  }

  function OpenTag(name: string, attrs: seq<(string, string)>): string {
    "<" + (name + (RenderAttrs(attrs) + ">"))
  }

  function CloseTag(name: string): string {
    "</" + (name + ">")
  }

  function Render(h: Html): string
    decreases h, 0
  {
    match h
    case HText(t) => EscapeText(t)
    case HElem(name, attrs, children) =>
      OpenTag(name, attrs) + if name in VOID_TAGS then "" else RenderAll(children) + CloseTag(name)
  }

  function RenderAll(hs: seq<Html>): string
    decreases hs, 0
  {
    if hs == [] then "" else Render(hs[0]) + RenderAll(hs[1..])
  }

  /** What each character is written as. */
  lemma MarkupIs(c: char)
    ensures EscapeText([c]) ==
      if c == '&' then "&amp;" else if c == '<' then "&lt;" else if c == '>' then "&gt;" else [c]
    ensures EscapeAttr([c]) == if c == '"' then "&quot;" else EscapeText([c])
  {
    hide EscapeText, EscapeAttr;
    EntityOfOne(c);
  }

  /** And each tag. */
  lemma TagsAre(name: string, a: string, v: string, b: string, w: string)
    ensures OpenTag(name, [(a, v), (b, w)])
         == "<" + name + " " + a + "=\"" + EscapeAttr(v) + "\" " + b + "=\"" + EscapeAttr(w) + "\">"
    ensures OpenTag(name, []) == "<" + name + ">" && CloseTag(name) == "</" + name + ">"
  {
    hide EscapeAttr;
    var first, second := RenderAttr((a, v)), RenderAttr((b, w));
    assert first == " " + a + "=\"" + EscapeAttr(v) + "\"" && second == " " + b + "=\"" + EscapeAttr(w) + "\"";
    assert RenderAttrs([(a, v), (b, w)]) == first + second by {
      assert [(a, v), (b, w)][1..] == [(b, w)] && [(b, w)][1..] == [];
    }
  }
}
