// A plain tag parser, and the proof that it undoes the printer. It reads the markup that the
// snapshot writes and no more: tags in lower case, attributes in double quotes, four entities.
module HtmlParser {
  import opened Results
  import opened Html

  predicate IsNameChar(c: char) { 'a' <= c <= 'z' || '0' <= c <= '9' }

  /** Length of the tag name in front. */
  function NameLength(s: string): (n: nat)
    ensures n <= |s|
  {
    if s == "" || !IsNameChar(s[0]) then 0 else 1 + NameLength(s[1..])
  }

  /** Where `c` first occurs, or the end. */
  function Until(s: string, c: char): (n: nat)
    ensures n <= |s|
  {
    if s == "" || s[0] == c then 0 else 1 + Until(s[1..], c)
  }

  /** `="value"` */
  function ParseQuoted(s: string): (r: Option<(string, string)>)
    ensures r.Some? ==> |r.value.1| < |s|
  {
    if !("=\"" <= s) then None
    else
      var v := Until(s[2..], '"');
      if v == |s[2..]| then None else Some((Unescape(s[2..][..v]), s[2..][v..][1..]))
  }

  /** ` name="value"`, the value unescaped. */
  function ParseAttr(s: string): (r: Option<((string, string), string)>)
    requires s != ""
    ensures r.Some? ==> |r.value.1| < |s|
  {
    var n := Until(s[1..], '=');
    var value := ParseQuoted(s[1..][n..]);
    if value.None? then None else Some(((s[1..][..n], value.value.0), value.value.1))
  }

  /** Attributes up to whatever does not start with a space. */
  function ParseAttrs(s: string): (r: Option<(seq<(string, string)>, string)>)
    ensures r.Some? ==> |r.value.1| <= |s|
    decreases |s|
  {
    if s == "" || s[0] != ' ' then Some(([], s))
    else
      var first := ParseAttr(s);
      if first.None? then None
      else
        var more := ParseAttrs(first.value.1);
        if more.None? then None else Some(([first.value.0] + more.value.0, more.value.1))
  }

  /** Nodes up to the end or a closing tag. */
  function ParseAll(s: string): (r: Option<(seq<Html>, string)>)
    ensures r.Some? ==> |r.value.1| <= |s|
    decreases |s|
  {
    if s == "" || "</" <= s then Some(([], s))
    else if s[0] == '<' then
      var first := ParseElement(s);
      if first.None? then None
      else
        var more := ParseAll(first.value.1);
        if more.None? then None else Some(([first.value.0] + more.value.0, more.value.1))
    else
      var n := Until(s, '<');
      var more := ParseAll(s[n..]);
      if more.None? then None else Some(([HText(Unescape(s[..n]))] + more.value.0, more.value.1))
  }

  function ParseElement(s: string): (r: Option<(Html, string)>)
    requires s != "" && s[0] == '<'
    ensures r.Some? ==> |r.value.1| < |s|
    decreases |s|, 0
  {
    var n := NameLength(s[1..]);
    var name := s[1..][..n];
    var attrs := ParseAttrs(s[1..][n..]);
    if attrs.None? || attrs.value.1 == "" || attrs.value.1[0] != '>' then None
    else
      var body := attrs.value.1[1..];
      if name in VOID_TAGS then Some((HElem(name, attrs.value.0, []), body))
      else
        var children := ParseAll(body);
        if children.None? || !(CloseTag(name) <= children.value.1) then None
        else Some((HElem(name, attrs.value.0, children.value.0), children.value.1[|CloseTag(name)|..]))
  }

  // ---- the trees it can read ----------------------------------------------------------------

  predicate ValidName(name: string) {
    name != "" && forall c <- name :: IsNameChar(c)
  }

  predicate ValidAttrs(attrs: seq<(string, string)>) {
    forall a <- attrs :: '=' !in a.0
  }

  /** Names the printer may use, and no children under a void tag. */
  ghost predicate WellFormed(hs: seq<Html>) {
    forall i :: 0 <= i < |hs| && hs[i].HElem? ==>
      && ValidName(hs[i].name) && ValidAttrs(hs[i].attrs)
      && (hs[i].name in VOID_TAGS ==> hs[i].children == [])
      && WellFormed(hs[i].children)
  }

  /** Also no empty text and no two adjacent texts. */
  ghost predicate Normal(hs: seq<Html>) {
    && WellFormed(hs)
    && (forall i :: 0 <= i < |hs| && hs[i].HText? ==> hs[i].text != "")
    && (forall i :: 0 <= i < |hs| - 1 ==> hs[i].HElem? || hs[i + 1].HElem?)
    && (forall i :: 0 <= i < |hs| && hs[i].HElem? ==> Normal(hs[i].children))
  }

  /** Empty text dropped and adjacent text merged, at every level. */
  function Normalize(hs: seq<Html>): seq<Html>
    decreases hs
  {
    if hs == [] then []
    else
      var rest := Normalize(hs[1..]);
      match hs[0]
      case HElem(name, attrs, children) => [HElem(name, attrs, Normalize(children))] + rest
      case HText(t) =>
        if t == "" then rest
        else if rest != [] && rest[0].HText? then [HText(t + rest[0].text)] + rest[1..]
        else [HText(t)] + rest
  }

  // ---- parsing undoes printing ----------------------------------------------------------------

  lemma {:induction false} UntilIs(a: string, c: char, rest: string)
    requires c !in a
    ensures Until(a + rest, c) == |a| + Until(rest, c)
  {
    if a == "" {
      assert a + rest == rest;
    } else {
      assert a[0] in a && (a + rest)[1..] == a[1..] + rest;
      UntilIs(a[1..], c, rest);
    }
  }

  lemma {:induction false} NameIs(name: string, rest: string)
    requires (forall c <- name :: IsNameChar(c)) && (rest == "" || !IsNameChar(rest[0]))
    ensures NameLength(name + rest) == |name|
  {
    if name == "" {
      assert name + rest == rest;
    } else {
      assert name[0] in name && (name + rest)[1..] == name[1..] + rest;
      NameIs(name[1..], rest);
    }
  }

  /** Cutting a concatenation where its parts meet. */
  lemma Cut(a: string, b: string)
    ensures (a + b)[..|a|] == a && (a + b)[|a|..] == b
  {}

  lemma Regroup3(a: string, b: string, c: string)
    ensures a + b + c == a + (b + c)
  {}

  lemma AttrText(a: (string, string), rest: string)
    ensures RenderAttr(a) + rest == " " + (a.0 + ("=\"" + (EscapeAttr(a.1) + ("\"" + rest))))
  {
    var v := EscapeAttr(a.1);
    Regroup3(" ", a.0 + ("=\"" + (v + "\"")), rest);
    Regroup3(a.0, "=\"" + (v + "\""), rest);
    Regroup3("=\"", v + "\"", rest);
    Regroup3(v, "\"", rest);
  }

  lemma OneAttrBack(a: (string, string), rest: string)
    requires '=' !in a.0
    ensures var s := RenderAttr(a) + rest; s != "" && s[0] == ' ' && ParseAttr(s) == Some((a, rest))
  {
    hide RenderAttr, EscapeAttr, Until, ParseQuoted;
    var quoted := "=\"" + (EscapeAttr(a.1) + ("\"" + rest));
    AttrText(a, rest);
    Cut(" ", a.0 + quoted);
    UntilIs(a.0, '=', quoted);
    UntilHere(quoted, '=');
    Cut(a.0, quoted);
    QuotedBack(a.1, rest);
  }

  lemma QuotedBack(value: string, rest: string)
    ensures ParseQuoted("=\"" + (EscapeAttr(value) + ("\"" + rest))) == Some((value, rest))
  {
    hide EscapeAttr, Until, Unescape;
    var v, tail := EscapeAttr(value), "\"" + rest;
    PassesAreOne(value);
    UnescapeUndoes(value, true);
    Cut("=\"", v + tail);
    UntilIs(v, '"', tail);
    UntilHere(tail, '"');
    Cut(v, tail);
    Cut("\"", rest);
  }

  lemma UntilHere(s: string, c: char)
    requires s != "" && s[0] == c
    ensures Until(s, c) == 0
  {}

  lemma {:induction false} AttrsBack(attrs: seq<(string, string)>, rest: string)
    requires ValidAttrs(attrs) && (rest == "" || rest[0] != ' ')
    ensures ParseAttrs(RenderAttrs(attrs) + rest) == Some((attrs, rest))
  {
    hide RenderAttr, ParseAttr;
    if attrs == [] {
      assert "" + rest == rest;
    } else {
      assert attrs[0] in attrs;
      AttrsBack(attrs[1..], rest);
      Regroup3(RenderAttr(attrs[0]), RenderAttrs(attrs[1..]), rest);
      OneAttrBack(attrs[0], RenderAttrs(attrs[1..]) + rest);
      assert [attrs[0]] + attrs[1..] == attrs;
    }
  }

  lemma OpenTagBack(name: string, attrs: seq<(string, string)>, rest: string)
    requires ValidName(name) && ValidAttrs(attrs)
    ensures var s := OpenTag(name, attrs) + rest;
      && |s| > 0 && s[0] == '<' && !("</" <= s) && NameLength(s[1..]) == |name| && s[1..][..|name|] == name
      && ParseAttrs(s[1..][|name|..]) == Some((attrs, ">" + rest))
  {
    var tail := RenderAttrs(attrs) + (">" + rest);
    var s := "<" + (name + tail);
    assert OpenTag(name, attrs) + rest == "<" + (name + (RenderAttrs(attrs) + (">" + rest)));
    Cut("<", name + tail);
    assert name[0] in name && s[1] == name[0];
    if attrs == [] { assert tail[0] == '>'; } else { assert tail[0] == ' '; }
    NameIs(name, tail);
    Cut(name, tail);
    AttrsBack(attrs, ">" + rest);
  }

  ghost predicate Ends(rest: string) {
    rest == "" || "</" <= rest
  }

  lemma TextBack(t: string, more: string)
    requires t != "" && (more == "" || more[0] == '<')
    ensures var s := EscapeText(t) + more;
      s != "" && s[0] != '<' && Until(s, '<') == |EscapeText(t)| && s[|EscapeText(t)|..] == more
      && Unescape(s[..|EscapeText(t)|]) == t
  {
    PassesAreOne(t);
    UnescapeUndoes(t, false);
    var e := EscapeText(t);
    assert Unescape("") == "";
    assert e[0] in e && (e + more)[0] == e[0];
    UntilIs(e, '<', more);
    assert (e + more)[..|e|] == e;
  }

  lemma NormalTail(hs: seq<Html>)
    requires hs != [] && Normal(hs)
    ensures Normal(hs[1..])
  {}

  lemma RenderStarts(hs: seq<Html>, rest: string)
    requires (hs == [] || hs[0].HElem?) && Ends(rest)
    ensures var more := RenderAll(hs) + rest; more == "" || more[0] == '<'
  {}

  /** An element whose opening tag has been read. */
  function AfterOpenTag(name: string, attrs: seq<(string, string)>, body: string): Option<(Html, string)> {
    if name in VOID_TAGS then Some((HElem(name, attrs, []), body))
    else
      var children := ParseAll(body);
      if children.None? || !(CloseTag(name) <= children.value.1) then None
      else Some((HElem(name, attrs, children.value.0), children.value.1[|CloseTag(name)|..]))
  }

  lemma OpenTagRead(name: string, attrs: seq<(string, string)>, body: string)
    requires ValidName(name) && ValidAttrs(attrs)
    ensures var s := OpenTag(name, attrs) + body;
      s != "" && s[0] == '<' && !("</" <= s) && ParseElement(s) == AfterOpenTag(name, attrs, body)
  {
    hide OpenTag, CloseTag, NameLength, ParseAttrs, ParseAll;
    OpenTagBack(name, attrs, body);
    Cut(">", body);
  }

  lemma {:induction false} ElementBack(h: Html, rest: string)
    requires h.HElem? && Normal([h])
    ensures var s := Render(h) + rest; s != "" && s[0] == '<' && !("</" <= s) && ParseElement(s) == Some((h, rest))
    decreases h, 1
  {
    hide OpenTag, CloseTag, RenderAll, ParseElement, ParseAll;
    assert [h][0] == h;
    var name, attrs := h.name, h.attrs;
    if name in VOID_TAGS {
      OpenTagRead(name, attrs, rest);
      assert OpenTag(name, attrs) + "" == OpenTag(name, attrs);
    } else {
      var close := CloseTag(name) + rest;
      var body := RenderAll(h.children) + close;
      Regroup3(OpenTag(name, attrs), RenderAll(h.children) + CloseTag(name), rest);
      Regroup3(RenderAll(h.children), CloseTag(name), rest);
      OpenTagRead(name, attrs, body);
      CloseTagEnds(name, rest);
      AllBack(h.children, close);
      Cut(CloseTag(name), rest);
    }
  }

  lemma CloseTagEnds(name: string, rest: string)
    ensures Ends(CloseTag(name) + rest)
  {
    var close := CloseTag(name) + rest;
    assert close[0] == '<' && close[1] == '/';
  }

  lemma ElementReads(s: string)
    requires s != "" && s[0] == '<' && !("</" <= s)
    ensures ParseAll(s) ==
      if ParseElement(s).None? || ParseAll(ParseElement(s).value.1).None? then None
      else Some(([ParseElement(s).value.0] + ParseAll(ParseElement(s).value.1).value.0, ParseAll(ParseElement(s).value.1).value.1))
  {
    hide ParseElement;
  }

  lemma EndReads(rest: string)
    requires Ends(rest)
    ensures ParseAll(rest) == Some(([], rest))
  {}

  /** The parser gives back every normal forest. */
  lemma {:induction false} AllBack(hs: seq<Html>, rest: string)
    requires Normal(hs) && Ends(rest)
    ensures ParseAll(RenderAll(hs) + rest) == Some((hs, rest))
    decreases hs, 0
  {
    hide ParseAll, ParseElement, EscapeText, Ends;
    if hs == [] {
      EndReads(rest);
      assert "" + rest == rest;
    } else {
      var more := RenderAll(hs[1..]) + rest;
      assert RenderAll(hs) + rest == Render(hs[0]) + more;
      NormalTail(hs);
      AllBack(hs[1..], rest);
      assert [hs[0]] + hs[1..] == hs;
      if hs[0].HText? {
        RenderStarts(hs[1..], rest);
        TextRead(hs[0].text, more);
      } else {
        ElementBack(hs[0], more);
        ElementReads(Render(hs[0]) + more);
      }
    }
  }

  lemma TextRead(t: string, more: string)
    requires t != "" && (more == "" || more[0] == '<') && ParseAll(more).Some?
    ensures ParseAll(EscapeText(t) + more) == Some(([HText(t)] + ParseAll(more).value.0, ParseAll(more).value.1))
  {
    hide EscapeText, Until, Unescape;
    TextBack(t, more);
    var s := EscapeText(t) + more;
    assert s[0] != '<';
  }

  // ---- normalizing does not show in print --------------------------------------------------------

  lemma RenderCons(h: Html, hs: seq<Html>)
    ensures RenderAll([h] + hs) == Render(h) + RenderAll(hs)
  {
    assert ([h] + hs)[1..] == hs;
  }

  lemma NormalCons(h: Html, hs: seq<Html>)
    requires Normal(hs)
    requires if h.HText? then h.text != "" && (hs != [] ==> hs[0].HElem?)
             else ValidName(h.name) && ValidAttrs(h.attrs) && (h.name in VOID_TAGS ==> h.children == []) && Normal(h.children)
    ensures Normal([h] + hs)
  {
    var r := [h] + hs;
    forall i | 0 <= i < |r| && r[i].HElem?
      ensures ValidName(r[i].name) && ValidAttrs(r[i].attrs) && (r[i].name in VOID_TAGS ==> r[i].children == [])
      ensures WellFormed(r[i].children) && Normal(r[i].children)
    {
      if i > 0 { assert r[i] == hs[i - 1]; }
    }
    forall i | 0 <= i < |r| - 1 ensures r[i].HElem? || r[i + 1].HElem? {
      if i > 0 { assert r[i] == hs[i - 1] && r[i + 1] == hs[i]; }
    }
    assert forall i :: 0 < i < |r| ==> r[i] == hs[i - 1];
  }

  lemma {:induction false} NormalizeSound(hs: seq<Html>)
    requires WellFormed(hs)
    ensures Normal(Normalize(hs)) && RenderAll(Normalize(hs)) == RenderAll(hs)
    decreases hs
  {
    hide RenderAttrs, Normal;
    if hs == [] {
      assert Normal([]) by { NothingIsNormal(); }
    } else {
      NormalizeSound(hs[1..]);
      var rest := Normalize(hs[1..]);
      match hs[0]
      case HElem(name, attrs, children) =>
        NormalizeSound(children);
        NormalCons(HElem(name, attrs, Normalize(children)), rest);
        RenderCons(HElem(name, attrs, Normalize(children)), rest);
      case HText(t) => NormalizeText(t, rest);
    }
  }

  lemma NothingIsNormal()
    ensures Normal([])
  {}

  /** A text in front of a normal forest. */
  lemma NormalizeText(t: string, rest: seq<Html>)
    requires Normal(rest)
    ensures var r := if t == "" then rest
        else if rest != [] && rest[0].HText? then [HText(t + rest[0].text)] + rest[1..]
        else [HText(t)] + rest;
      Normal(r) && RenderAll(r) == EscapeText(t) + RenderAll(rest)
  {
    hide EscapeText, Normal;
    if t == "" {
      EscapeEmpty();
      assert "" + RenderAll(rest) == RenderAll(rest);
    } else if rest != [] && rest[0].HText? {
      var merged := HText(t + rest[0].text);
      NormalTail(rest);
      NormalHead(rest);
      NormalCons(merged, rest[1..]);
      RenderCons(merged, rest[1..]);
      RenderCons(rest[0], rest[1..]);
      assert [rest[0]] + rest[1..] == rest;
      EscapeAppends(t, rest[0].text);
      Regroup3(EscapeText(t), EscapeText(rest[0].text), RenderAll(rest[1..]));
    } else {
      NormalCons(HText(t), rest);
      RenderCons(HText(t), rest);
    }
  }

  lemma NormalHead(hs: seq<Html>)
    requires Normal(hs) && hs != [] && hs[0].HText?
    ensures |hs| > 1 ==> hs[1].HElem?
  {}

  /** Parsing undoes printing, up to merging adjacent text. */
  lemma ParseUndoesRender(hs: seq<Html>)
    requires WellFormed(hs)
    ensures ParseAll(RenderAll(hs)) == Some((Normalize(hs), ""))
  {
    NormalizeSound(hs);
    AllBack(Normalize(hs), "");
    assert RenderAll(hs) + "" == RenderAll(hs);
  }
}
