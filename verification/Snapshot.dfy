// packages/chrome-extension/src/snapshot.ts: the DOM walk into sanitized markup and a ref table.
module Snapshot {
  import opened Results
  import opened Digits
  import opened Html
  import opened HtmlParser

  datatype Click = Click(kind: string, text: string, href: Option<string>)

  /** A DOM node as the walk sees it. `identity` is the element object itself; `tag` its tag name in
      lower case; `hidden`, `href` (resolved, none if absent or unparseable) and `verdict` (the
      click policy's) are what the page and the policies say. */
  datatype Dom =
    | TextNode(text: string)
    | OtherNode
    | Element(identity: nat, tag: string, attributes: map<string, string>, href: Option<string>, hidden: bool,
              verdict: Option<Click>, light: seq<Dom>, shadow: seq<Dom>)

  const DROP_TAGS := {
    "script", "style", "noscript", "template", "svg", "canvas", "iframe", "frame", "object", "embed", "video",
    "audio", "picture", "source", "track", "map", "input", "textarea", "select", "option", "datalist", "meta",
    "link", "head", "title", "base"}

  const KEEP_ATTRS := ["class", "id", "role", "aria-label", "datetime", "alt", "title", "rel"]

  const REF_ATTR := "data-tsforge-ref"

  datatype RefInfo = RefInfo(ref: nat, click: Click)

  /** `/^[a-z][a-z0-9]*$/`, or else a div. */
  function OutTag(tag: string): string {
    if tag != "" && 'a' <= tag[0] <= 'z' && forall c <- tag :: IsNameChar(c) then tag else "div"
  }

  predicate Skipped(n: Dom)
    requires n.Element?
  {
    n.tag in DROP_TAGS || n.hidden
  }

  function KeptAttrs(attributes: map<string, string>, names: seq<string>): seq<(string, string)> {
    if names == [] then []
    else (if names[0] in attributes then [(names[0], attributes[names[0]])] else []) + KeptAttrs(attributes, names[1..])
  }

  function AttrsOf(n: Dom, ref: Option<nat>): seq<(string, string)>
    requires n.Element?
  {
    KeptAttrs(n.attributes, KEEP_ATTRS)
    + (if n.href.Some? then [("href", n.href.value)] else [])
    + (if ref.Some? then [(REF_ATTR, Decimal(ref.value))] else [])
  }

  // ---- the sanitized tree ---------------------------------------------------------------------

  function RefFor(n: Dom, next: nat): Option<nat>
    requires n.Element?
  {
    if n.verdict.Some? then Some(next) else None
  }

  function AfterRef(n: Dom, next: nat): nat
    requires n.Element?
  {
    if n.verdict.Some? then next + 1 else next
  }

  /** What the page comes to with nothing truncated, and the next free ref. */
  function Sanitize(n: Dom, next: nat): (seq<Html>, nat)
    decreases n
  {
    match n
    case TextNode(t) => ([HText(t)], next)
    case OtherNode => ([], next)
    case Element(_, tag, _, _, _, _, light, shadow) =>
      if Skipped(n) then ([], next)
      else
        var attrs, inside := AttrsOf(n, RefFor(n, next)), AfterRef(n, next);
        if tag in VOID_TAGS then ([HElem(OutTag(tag), attrs, [])], inside)
        else
          var (a, k) := SanitizeAll(light, inside);
          var (b, l) := SanitizeAll(shadow, k);
          ([HElem(OutTag(tag), attrs, a + b)], l)
  }

  function SanitizeAll(ns: seq<Dom>, next: nat): (seq<Html>, nat)
    decreases ns
  {
    if ns == [] then ([], next)
    else
      var (a, k) := Sanitize(ns[0], next);
      var (b, l) := SanitizeAll(ns[1..], k);
      (a + b, l)
  }

  /** The clickable elements that are not skipped, in document order. */
  function Clickables(n: Dom): seq<Dom>
    decreases n
  {
    match n
    case Element(_, tag, _, _, _, verdict, light, shadow) =>
      if Skipped(n) then []
      else (if verdict.Some? then [n] else [])
           + (if tag in VOID_TAGS then [] else ClickablesAll(light) + ClickablesAll(shadow))
    case _ => []
  }

  function ClickablesAll(ns: seq<Dom>): seq<Dom>
    decreases ns
  {
    if ns == [] then [] else Clickables(ns[0]) + ClickablesAll(ns[1..])
  }

  // ---- the walk ---------------------------------------------------------------------------------

  /** `IWalk`. `elements` maps a ref to the identity of its element. */
  datatype Walk = Walk(
    parts: seq<string>,
    size: nat,
    truncated: bool,
    refs: seq<RefInfo>,
    elements: map<nat, nat>,
    nextRef: nat)

  function Push(cap: nat, w: Walk, s: string): Walk {
    if w.size + |s| > cap then w.(truncated := true) else w.(parts := w.parts + [s], size := w.size + |s|)
  }

  function AssignRef(w: Walk, n: Dom): Walk
    requires n.Element?
  {
    if n.verdict.None? then w
    else w.(nextRef := w.nextRef + 1, elements := w.elements[w.nextRef := n.identity],
            refs := w.refs + [RefInfo(w.nextRef, n.verdict.value)])
  }

  function WalkNode(cap: nat, w: Walk, n: Dom): Walk
    decreases n
  {
    if w.truncated then w
    else
      match n
      case TextNode(t) => Push(cap, w, EscapeText(t))
      case OtherNode => w
      case Element(_, tag, _, _, _, _, light, shadow) =>
        if Skipped(n) then w
        else
          var begun := Push(cap, AssignRef(w, n), OpenTag(OutTag(tag), AttrsOf(n, RefFor(n, w.nextRef))));
          if tag in VOID_TAGS then begun
          else Push(cap, WalkAll(cap, WalkAll(cap, begun, light), shadow), CloseTag(OutTag(tag)))
  }

  function WalkAll(cap: nat, w: Walk, ns: seq<Dom>): Walk
    decreases ns
  {
    if ns == [] then w else WalkAll(cap, WalkNode(cap, w, ns[0]), ns[1..])
  }

  const BODY_OPEN := "<html><body>"
  const BODY_CLOSE := "</body></html>"

  /** `snapshotDocument`, over the children of the body. */
  function SnapshotOf(cap: nat, body: seq<Dom>, firstRef: nat): Walk {
    Push(cap, WalkAll(cap, Push(cap, Walk([], 0, false, [], map[], firstRef), BODY_OPEN), body), BODY_CLOSE)
  }

  // ---- the record updated in place -----------------------------------------------------------------

  lemma {:induction false} WalkAllSplits(cap: nat, w: Walk, a: seq<Dom>, b: seq<Dom>)
    ensures WalkAll(cap, w, a + b) == WalkAll(cap, WalkAll(cap, w, a), b)
    decreases a
  {
    hide WalkNode;
    if a == [] {
      assert a + b == b;
    } else {
      assert (a + b)[0] == a[0] && (a + b)[1..] == a[1..] + b;
      WalkAllSplits(cap, WalkNode(cap, w, a[0]), a[1..], b);
    }
  }

  lemma {:induction false} RenderAttrsAppends(a: seq<(string, string)>, b: seq<(string, string)>)
    ensures RenderAttrs(a + b) == RenderAttrs(a) + RenderAttrs(b)
  {
    hide RenderAttr;
    if a == [] {
      assert a + b == b;
      assert "" + RenderAttrs(b) == RenderAttrs(b);
    } else {
      assert (a + b)[0] == a[0] && (a + b)[1..] == a[1..] + b;
      RenderAttrsAppends(a[1..], b);
      Regroup3(RenderAttr(a[0]), RenderAttrs(a[1..]), RenderAttrs(b));
    }
  }

  lemma RenderAttrsOne(a: (string, string))
    ensures RenderAttrs([a]) == RenderAttr(a)
  {
    assert RenderAttr(a) + "" == RenderAttr(a);
  }

  lemma {:induction false} KeptAttrsUpTo(attributes: map<string, string>, names: seq<string>, i: nat)
    requires i < |names|
    ensures KeptAttrs(attributes, names[..i + 1])
         == KeptAttrs(attributes, names[..i]) + if names[i] in attributes then [(names[i], attributes[names[i]])] else []
  {
    if i == 0 {
      assert names[..1][1..] == [];
    } else {
      KeptAttrsUpTo(attributes, names[1..], i - 1);
      assert names[1..][..i] == names[..i + 1][1..] && names[1..][..i - 1] == names[..i][1..];
    }
  }

  /** `attrs`: the string grows attribute by attribute. */
  method WriteAttrs(n: Dom, ref: Option<nat>) returns (out: string)
    requires n.Element?
    ensures out == RenderAttrs(AttrsOf(n, ref))
  {
    hide RenderAttr, EscapeAttr;
    out := "";
    var i := 0;
    while i < |KEEP_ATTRS|
      invariant i <= |KEEP_ATTRS| && out == RenderAttrs(KeptAttrs(n.attributes, KEEP_ATTRS[..i]))
    {
      var name := KEEP_ATTRS[i];
      KeptAttrsUpTo(n.attributes, KEEP_ATTRS, i);
      if name in n.attributes {
        RenderAttrsAppends(KeptAttrs(n.attributes, KEEP_ATTRS[..i]), [(name, n.attributes[name])]);
        RenderAttrsOne((name, n.attributes[name]));
        out := out + RenderAttr((name, n.attributes[name]));
      } else {
        assert KeptAttrs(n.attributes, KEEP_ATTRS[..i]) + [] == KeptAttrs(n.attributes, KEEP_ATTRS[..i]);
      }
      i := i + 1;
    }
    assert KEEP_ATTRS[..i] == KEEP_ATTRS;
    ghost var kept := KeptAttrs(n.attributes, KEEP_ATTRS);
    ghost var link := if n.href.Some? then [("href", n.href.value)] else [];
    ghost var mark := if ref.Some? then [(REF_ATTR, Decimal(ref.value))] else [];
    RenderAttrsAppends(kept, link);
    RenderAttrsAppends(kept + link, mark);
    assert kept + [] == kept && kept + link + [] == kept + link;
    if n.href.Some? {
      RenderAttrsOne(("href", n.href.value));
      out := out + RenderAttr(("href", n.href.value));
    }
    if ref.Some? {
      RenderAttrsOne((REF_ATTR, Decimal(ref.value)));
      out := out + RenderAttr((REF_ATTR, Decimal(ref.value)));
    }
  }

  class Walker {
    const cap: nat
    var parts: seq<string>
    var size: nat
    var truncated: bool
    var refs: seq<RefInfo>
    var elements: map<nat, nat>
    var nextRef: nat

    ghost function State(): Walk
      reads this
    {
      Walk(parts, size, truncated, refs, elements, nextRef)
    }

    constructor (cap: nat, firstRef: nat)
      ensures this.cap == cap && State() == Walk([], 0, false, [], map[], firstRef)
    {
      this.cap := cap;
      parts, size, truncated, refs, elements, nextRef := [], 0, false, [], map[], firstRef;
    }

    method PushText(s: string)
      modifies this
      ensures State() == Push(cap, old(State()), s)
    {
      if size + |s| > cap {
        truncated := true;
        return;
      }
      parts := parts + [s];
      size := size + |s|;
    }

    method AssignTo(n: Dom) returns (ref: Option<nat>)
      requires n.Element?
      modifies this
      ensures State() == AssignRef(old(State()), n) && ref == RefFor(n, old(nextRef))
    {
      if n.verdict.None? { return None; }
      var r := nextRef;
      nextRef := nextRef + 1;
      elements := elements[r := n.identity];
      refs := refs + [RefInfo(r, n.verdict.value)];
      return Some(r);
    }

    method WalkTree(n: Dom)
      modifies this
      ensures State() == WalkNode(cap, old(State()), n)
      decreases n
    {
      hide EscapeText, OpenTag, CloseTag, AttrsOf, OutTag, Push, AssignRef;
      if truncated { return; }
      if n.TextNode? {
        PushText(EscapeText(n.text));
        return;
      }
      if !n.Element? || n.tag in DROP_TAGS || n.hidden { return; }
      var name := OutTag(n.tag);
      var ref := AssignTo(n);
      var attrs := WriteAttrs(n, ref);
      OpenTagIs(name, AttrsOf(n, ref));
      PushText("<" + (name + (attrs + ">")));
      if n.tag in VOID_TAGS { return; }
      ghost var begun := State();
      var children := n.light + n.shadow;
      var i := 0;
      while i < |children|
        invariant i <= |children|
        invariant WalkAll(cap, State(), children[i..]) == WalkAll(cap, begun, children)
      {
        assert children[i] in n.light || children[i] in n.shadow;
        assert children[i..][0] == children[i] && children[i..][1..] == children[i + 1..];
        WalkTree(children[i]);
        i := i + 1;
      }
      WalkAllSplits(cap, begun, n.light, n.shadow);
      CloseTagIs(name);
      PushText("</" + (name + ">"));
    }

    /** `snapshotDocument`. */
    method Snapshot(body: seq<Dom>)
      requires State() == Walk([], 0, false, [], map[], nextRef)
      modifies this
      ensures State() == SnapshotOf(cap, body, old(nextRef))
    {
      hide Push, WalkNode;
      PushText(BODY_OPEN);
      ghost var begun := State();
      var i := 0;
      while i < |body|
        invariant i <= |body| && WalkAll(cap, State(), body[i..]) == WalkAll(cap, begun, body)
      {
        assert body[i..][0] == body[i] && body[i..][1..] == body[i + 1..];
        WalkTree(body[i]);
        i := i + 1;
      }
      PushText(BODY_CLOSE);
    }
  }

  lemma OpenTagIs(name: string, attrs: seq<(string, string)>)
    ensures OpenTag(name, attrs) == "<" + (name + (RenderAttrs(attrs) + ">"))
  {}

  lemma CloseTagIs(name: string)
    ensures CloseTag(name) == "</" + (name + ">")
  {}
}
