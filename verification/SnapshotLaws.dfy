// What the snapshot of packages/chrome-extension/src/snapshot.ts says about the page.
module SnapshotLaws {
  import opened Results
  import opened Html
  import opened HtmlParser
  import opened Snapshot

  function Joined(parts: seq<string>): string {
    if parts == [] then "" else parts[0] + Joined(parts[1..])
  }

  // ---- the size counter ---------------------------------------------------------------------------

  /** The counter is the output's length and never passes the cap, truncated or not. */
  ghost predicate Counted(cap: nat, w: Walk) {
    w.size == |Joined(w.parts)| <= cap
  }

  lemma {:induction false} JoinedAppends(parts: seq<string>, s: string)
    ensures Joined(parts + [s]) == Joined(parts) + s
  {
    if parts == [] {
      assert s + "" == s;
    } else {
      assert (parts + [s])[1..] == parts[1..] + [s];
      JoinedAppends(parts[1..], s);
    }
  }

  lemma PushCounts(cap: nat, w: Walk, s: string)
    requires Counted(cap, w)
    ensures Counted(cap, Push(cap, w, s))
  {
    JoinedAppends(w.parts, s);
  }

  lemma {:induction false} WalkCounts(cap: nat, w: Walk, n: Dom)
    requires Counted(cap, w)
    ensures Counted(cap, WalkNode(cap, w, n))
    decreases n
  {
    hide Joined, EscapeText, OpenTag, CloseTag, AttrsOf, OutTag;
    if !w.truncated {
      match n
      case TextNode(t) => PushCounts(cap, w, EscapeText(t));
      case OtherNode =>
      case Element(_, tag, _, _, _, _, light, shadow) =>
        if !Skipped(n) {
          var tag0 := OpenTag(OutTag(tag), AttrsOf(n, RefFor(n, w.nextRef)));
          PushCounts(cap, AssignRef(w, n), tag0);
          if tag !in VOID_TAGS {
            var begun := Push(cap, AssignRef(w, n), tag0);
            WalkAllCounts(cap, begun, light);
            WalkAllCounts(cap, WalkAll(cap, begun, light), shadow);
            PushCounts(cap, WalkAll(cap, WalkAll(cap, begun, light), shadow), CloseTag(OutTag(tag)));
          }
        }
    }
  }

  lemma {:induction false} WalkAllCounts(cap: nat, w: Walk, ns: seq<Dom>)
    requires Counted(cap, w)
    ensures Counted(cap, WalkAll(cap, w, ns))
    decreases ns
  {
    if ns != [] {
      WalkCounts(cap, w, ns[0]);
      WalkAllCounts(cap, WalkNode(cap, w, ns[0]), ns[1..]);
    }
  }

  // ---- what an untruncated walk writes ------------------------------------------------------------

  function Infos(next: nat, clicks: seq<Dom>): seq<RefInfo>
    requires forall n <- clicks :: n.Element? && n.verdict.Some?
  {
    seq(|clicks|, i requires 0 <= i < |clicks| => assert clicks[i] in clicks; RefInfo(next + i, clicks[i].verdict.value))
  }

  ghost predicate Points(elements: map<nat, nat>, r: nat, identity: nat) {
    r in elements && elements[r] == identity
  }

  /** Refs from `first` on name the elements in turn. */
  ghost predicate Names(elements: map<nat, nat>, first: nat, clicks: seq<Dom>)
    requires forall n <- clicks :: n.Element?
  {
    forall i {:trigger clicks[i]} :: 0 <= i < |clicks| ==> Points(elements, first + i, clicks[i].identity)
  }

  /** From `w`, with nothing truncated: the text of `out` is appended, and the clickables get
      consecutive refs that name their own elements. */
  ghost predicate Wrote(w: Walk, w': Walk, out: string, clicks: seq<Dom>) {
    && (forall n <- clicks :: n.Element? && n.verdict.Some?)
    && !w'.truncated
    && Joined(w'.parts) == Joined(w.parts) + out
    && w'.nextRef == w.nextRef + |clicks|
    && w'.refs == w.refs + Infos(w.nextRef, clicks)
    && Names(w'.elements, w.nextRef, clicks)
    && (forall r <- w.elements :: r < w.nextRef ==> Points(w'.elements, r, w.elements[r]))
  }

  lemma PushWrites(cap: nat, w: Walk, s: string)
    requires !w.truncated
    ensures w.size + |s| <= cap ==> Wrote(w, Push(cap, w, s), s, []) && Push(cap, w, s).size == w.size + |s|
    ensures Push(cap, w, s).truncated <==> w.size + |s| > cap
  {
    JoinedAppends(w.parts, s);
    assert w.refs + [] == w.refs;
  }

  lemma WroteChain(w0: Walk, w1: Walk, w2: Walk, a: string, b: string, x: seq<Dom>, y: seq<Dom>)
    requires Wrote(w0, w1, a, x) && Wrote(w1, w2, b, y)
    ensures Wrote(w0, w2, a + b, x + y)
  {
    assert Infos(w0.nextRef, x + y) == Infos(w0.nextRef, x) + Infos(w1.nextRef, y);
    Regroup3(Joined(w0.parts), a, b);
    forall i {:trigger (x + y)[i]} | 0 <= i < |x + y| ensures Points(w2.elements, w0.nextRef + i, (x + y)[i].identity) {
      if i < |x| {
        assert (x + y)[i] == x[i] && Points(w1.elements, w0.nextRef + i, x[i].identity);
      } else {
        assert (x + y)[i] == y[i - |x|];
      }
    }
  }

  /** Truncation sticks. */
  lemma {:induction false} StaysTruncated(cap: nat, w: Walk, ns: seq<Dom>)
    requires w.truncated
    ensures WalkAll(cap, w, ns) == w
    decreases ns
  {
    if ns != [] { StaysTruncated(cap, w, ns[1..]); }
  }

  /** The walk is the printing of the sanitized tree, or it is truncated: which of the two is
      settled by the length alone. */
  ghost predicate Faithful(cap: nat, w: Walk, w': Walk, out: string, next: nat, clicks: seq<Dom>) {
    && (w'.truncated <==> w.size + |out| > cap)
    && (w.size + |out| <= cap ==> Wrote(w, w', out, clicks) && w'.size == w.size + |out| && w'.nextRef == next)
  }

  lemma {:induction false} NodeFaithful(cap: nat, w: Walk, n: Dom)
    requires !w.truncated && w.size <= cap
    ensures Faithful(cap, w, WalkNode(cap, w, n), RenderAll(Sanitize(n, w.nextRef).0), Sanitize(n, w.nextRef).1, Clickables(n))
    decreases n, 1
  {
    match n
    case TextNode(t) =>
      PushWrites(cap, w, EscapeText(t));
      RenderOne(HText(t));
    case OtherNode =>
      assert Joined(w.parts) + "" == Joined(w.parts) && w.refs + [] == w.refs;
    case Element(_, _, _, _, _, _, _, _) =>
      if Skipped(n) {
        assert Joined(w.parts) + "" == Joined(w.parts) && w.refs + [] == w.refs;
      } else {
        ElementFaithful(cap, w, n);
      }
  }

  lemma RenderOne(h: Html)
    ensures RenderAll([h]) == Render(h)
  {
    assert Render(h) + "" == Render(h);
  }

  lemma {:induction false} RenderAppends(a: seq<Html>, b: seq<Html>)
    ensures RenderAll(a + b) == RenderAll(a) + RenderAll(b)
  {
    if a == [] {
      assert a + b == b;
      assert "" + RenderAll(b) == RenderAll(b);
    } else {
      assert (a + b)[1..] == a[1..] + b && (a + b)[0] == a[0];
      RenderAppends(a[1..], b);
      Regroup3(Render(a[0]), RenderAll(a[1..]), RenderAll(b));
    }
  }

  lemma OpenWrites(cap: nat, w: Walk, n: Dom, tag: string)
    requires !w.truncated && n.Element? && w.size <= cap
    ensures var begun := Push(cap, AssignRef(w, n), tag);
      && begun.nextRef == AfterRef(n, w.nextRef)
      && Faithful(cap, w, begun, tag, AfterRef(n, w.nextRef), if n.verdict.Some? then [n] else [])
  {
    PushWrites(cap, AssignRef(w, n), tag);
    var clicks := if n.verdict.Some? then [n] else [];
    assert AssignRef(w, n).refs == w.refs + Infos(w.nextRef, clicks);
    assert Joined(w.parts) + "" == Joined(w.parts);
  }

  lemma FaithfulChain(cap: nat, w0: Walk, w1: Walk, w2: Walk, a: string, b: string, k: nat, l: nat, x: seq<Dom>, y: seq<Dom>)
    requires w0.size <= cap
    requires Faithful(cap, w0, w1, a, k, x)
    requires w1.truncated ==> w2.truncated
    requires !w1.truncated ==> Faithful(cap, w1, w2, b, l, y)
    ensures Faithful(cap, w0, w2, a + b, l, x + y)
  {
    hide Wrote;
    if !w1.truncated && !w2.truncated { WroteChain(w0, w1, w2, a, b, x, y); }
  }

  lemma {:induction false} ElementFaithful(cap: nat, w: Walk, n: Dom)
    requires !w.truncated && w.size <= cap && n.Element? && !Skipped(n)
    ensures Faithful(cap, w, WalkNode(cap, w, n), RenderAll(Sanitize(n, w.nextRef).0), Sanitize(n, w.nextRef).1, Clickables(n))
    decreases n, 0
  {
    hide Faithful, AttrsOf, OpenTag, CloseTag, OutTag, Wrote, AssignRef;
    OutTagIsVoid(n.tag);
    var name, attrs := OutTag(n.tag), AttrsOf(n, RefFor(n, w.nextRef));
    var open, inside := OpenTag(name, attrs), AfterRef(n, w.nextRef);
    var own := if n.verdict.Some? then [n] else [];
    var begun := Push(cap, AssignRef(w, n), open);
    OpenWrites(cap, w, n, open);
    RenderOne(Sanitize(n, w.nextRef).0[0]);
    if n.tag in VOID_TAGS {
      assert open + "" == open && own + [] == own;
    } else {
      var (a, k) := SanitizeAll(n.light, inside);
      var (b, l) := SanitizeAll(n.shadow, k);
      var w1 := WalkAll(cap, begun, n.light);
      var w2 := WalkAll(cap, w1, n.shadow);
      var w3 := Push(cap, w2, CloseTag(name));
      var x, y := ClickablesAll(n.light), ClickablesAll(n.shadow);
      AllFaithful(cap, begun, n.light);
      FaithfulChain(cap, w, begun, w1, open, RenderAll(a), inside, k, own, x);
      FaithfulNext(cap, w, w1, open + RenderAll(a), k, own + x);
      AllFaithful(cap, w1, n.shadow);
      FaithfulChain(cap, w, w1, w2, open + RenderAll(a), RenderAll(b), k, l, own + x, y);
      FaithfulNext(cap, w, w2, open + RenderAll(a) + RenderAll(b), l, own + x + y);
      PushFaithful(cap, w2, CloseTag(name));
      FaithfulChain(cap, w, w2, w3, open + RenderAll(a) + RenderAll(b), CloseTag(name), l, l, own + x + y, []);
      RenderAppends(a, b);
      Associates(open, RenderAll(a), RenderAll(b), CloseTag(name));
      Associates(own, x, y, []);
      assert x + y + [] == x + y;
    }
  }

  lemma Associates<T>(a: seq<T>, b: seq<T>, c: seq<T>, d: seq<T>)
    ensures a + b + c + d == a + (b + c + d)
  {}

  /** A tag that is void keeps its name in print, and no other prints as void. */
  lemma OutTagIsVoid(tag: string)
    ensures OutTag(tag) in VOID_TAGS <==> tag in VOID_TAGS
    ensures ValidName(OutTag(tag))
  {}

  lemma FaithfulNext(cap: nat, w: Walk, w': Walk, out: string, next: nat, clicks: seq<Dom>)
    requires Faithful(cap, w, w', out, next, clicks)
    ensures !w'.truncated ==> w'.nextRef == next && w'.size <= cap
  {}

  lemma PushFaithful(cap: nat, w: Walk, s: string)
    ensures w.truncated ==> Push(cap, w, s).truncated
    ensures !w.truncated && w.size <= cap ==> Faithful(cap, w, Push(cap, w, s), s, w.nextRef, [])
  {
    if !w.truncated { PushWrites(cap, w, s); }
  }

  lemma {:induction false} AllFaithful(cap: nat, w: Walk, ns: seq<Dom>)
    ensures w.truncated ==> WalkAll(cap, w, ns).truncated
    ensures !w.truncated && w.size <= cap ==>
      Faithful(cap, w, WalkAll(cap, w, ns), RenderAll(SanitizeAll(ns, w.nextRef).0), SanitizeAll(ns, w.nextRef).1, ClickablesAll(ns))
    decreases ns, 2
  {
    if w.truncated {
      StaysTruncated(cap, w, ns);
    } else if w.size <= cap {
      if ns == [] {
        assert Joined(w.parts) + "" == Joined(w.parts) && w.refs + [] == w.refs;
      } else {
        hide Faithful, Wrote, Sanitize, Clickables, WalkNode;
        var w1 := WalkNode(cap, w, ns[0]);
        var (a, k) := Sanitize(ns[0], w.nextRef);
        NodeFaithful(cap, w, ns[0]);
        FaithfulNext(cap, w, w1, RenderAll(a), k, Clickables(ns[0]));
        AllFaithful(cap, w1, ns[1..]);
        FaithfulChain(cap, w, w1, WalkAll(cap, w1, ns[1..]), RenderAll(a), RenderAll(SanitizeAll(ns[1..], k).0), k,
                      SanitizeAll(ns[1..], k).1, Clickables(ns[0]), ClickablesAll(ns[1..]));
        RenderAppends(a, SanitizeAll(ns[1..], k).0);
      }
    }
  }

  // ---- the whole snapshot ---------------------------------------------------------------------------

  function Page(body: seq<Dom>, firstRef: nat): seq<Html> {
    SanitizeAll(body, firstRef).0
  }

  function PageText(body: seq<Dom>, firstRef: nat): string {
    BODY_OPEN + RenderAll(Page(body, firstRef)) + BODY_CLOSE
  }

  /** The counter is the output's length and stays within the cap, truncated or not. */
  lemma SizeIsLength(cap: nat, body: seq<Dom>, firstRef: nat)
    ensures SnapshotOf(cap, body, firstRef).size == |Joined(SnapshotOf(cap, body, firstRef).parts)| <= cap
  {
    hide Joined, Push, WalkAll;
    var w0 := Walk([], 0, false, [], map[], firstRef);
    assert Counted(cap, w0) by { NothingJoined(); }
    PushCounts(cap, w0, BODY_OPEN);
    WalkAllCounts(cap, Push(cap, w0, BODY_OPEN), body);
    PushCounts(cap, WalkAll(cap, Push(cap, w0, BODY_OPEN), body), BODY_CLOSE);
  }

  lemma NothingJoined()
    ensures Joined([]) == ""
  {}

  lemma WholeFaithful(cap: nat, body: seq<Dom>, firstRef: nat)
    ensures Faithful(cap, Walk([], 0, false, [], map[], firstRef), SnapshotOf(cap, body, firstRef), PageText(body, firstRef),
                     SanitizeAll(body, firstRef).1, ClickablesAll(body))
  {
    hide Faithful, Joined, Push, WalkAll, SanitizeAll, ClickablesAll, RenderAll;
    var w0 := Walk([], 0, false, [], map[], firstRef);
    var w1 := Push(cap, w0, BODY_OPEN);
    var w2 := WalkAll(cap, w1, body);
    var (page, next) := SanitizeAll(body, firstRef);
    var clicks := ClickablesAll(body);
    PushFaithful(cap, w0, BODY_OPEN);
    FaithfulNext(cap, w0, w1, BODY_OPEN, firstRef, []);
    AllFaithful(cap, w1, body);
    FaithfulChain(cap, w0, w1, w2, BODY_OPEN, RenderAll(page), firstRef, next, [], clicks);
    FaithfulNext(cap, w0, w2, BODY_OPEN + RenderAll(page), next, [] + clicks);
    PushFaithful(cap, w2, BODY_CLOSE);
    FaithfulChain(cap, w0, w2, Push(cap, w2, BODY_CLOSE), BODY_OPEN + RenderAll(page), BODY_CLOSE, next, next, [] + clicks, []);
    assert [] + clicks + [] == clicks;
  }

  /** For every page and cap: the result is truncated exactly when the whole text would not fit;
      if not, the output is that text, and the refs are consecutive from the first, in document
      order, each naming its own element. */
  lemma SnapshotIsPrint(cap: nat, body: seq<Dom>, firstRef: nat)
    ensures forall n <- ClickablesAll(body) :: n.Element? && n.verdict.Some?
    ensures var w := SnapshotOf(cap, body, firstRef);
      && (w.truncated <==> |PageText(body, firstRef)| > cap)
      && (!w.truncated ==>
            && Joined(w.parts) == PageText(body, firstRef)
            && w.refs == Infos(firstRef, ClickablesAll(body))
            && Names(w.elements, firstRef, ClickablesAll(body))
            && (forall r :: r in w.elements <==> firstRef <= r < firstRef + |ClickablesAll(body)|))
  {
    hide Joined, Push, WalkAll, SanitizeAll, ClickablesAll, RenderAll, Infos, Names, SnapshotOf, PageText;
    ClickableAll(body);
    WholeFaithful(cap, body, firstRef);
    NothingJoined();
    var w := SnapshotOf(cap, body, firstRef);
    if !w.truncated {
      assert Joined(w.parts) == "" + PageText(body, firstRef);
      assert w.refs == [] + Infos(firstRef, ClickablesAll(body));
    }
    SnapshotTable(cap, body, firstRef);
  }

  lemma SnapshotTable(cap: nat, body: seq<Dom>, firstRef: nat)
    ensures Table(SnapshotOf(cap, body, firstRef), firstRef)
  {
    hide WalkAll;
    WalkAllTable(cap, Push(cap, Walk([], 0, false, [], map[], firstRef), BODY_OPEN), body, firstRef);
  }

  lemma {:induction false} ClickableOne(n: Dom)
    ensures forall c <- Clickables(n) :: c.Element? && c.verdict.Some?
    decreases n
  {
    match n
    case Element(_, _, _, _, _, _, light, shadow) => ClickableAll(light); ClickableAll(shadow);
    case _ =>
  }

  lemma {:induction false} ClickableAll(ns: seq<Dom>)
    ensures forall c <- ClickablesAll(ns) :: c.Element? && c.verdict.Some?
    decreases ns
  {
    if ns != [] {
      ClickableOne(ns[0]);
      ClickableAll(ns[1..]);
    }
  }

  /** Refs below the next one, and no others, are in the table. */
  ghost predicate Table(w: Walk, first: nat) {
    first <= w.nextRef && forall r :: r in w.elements <==> first <= r < w.nextRef
  }

  lemma {:induction false} WalkTable(cap: nat, w: Walk, n: Dom, first: nat)
    requires Table(w, first)
    ensures Table(WalkNode(cap, w, n), first)
    decreases n
  {
    hide OpenTag, CloseTag, AttrsOf, OutTag, EscapeText;
    if !w.truncated && n.Element? && !Skipped(n) && n.tag !in VOID_TAGS {
      var begun := Push(cap, AssignRef(w, n), OpenTag(OutTag(n.tag), AttrsOf(n, RefFor(n, w.nextRef))));
      WalkAllTable(cap, begun, n.light, first);
      WalkAllTable(cap, WalkAll(cap, begun, n.light), n.shadow, first);
    }
  }

  lemma {:induction false} WalkAllTable(cap: nat, w: Walk, ns: seq<Dom>, first: nat)
    requires Table(w, first)
    ensures Table(WalkAll(cap, w, ns), first)
    decreases ns
  {
    if ns != [] {
      WalkTable(cap, w, ns[0], first);
      WalkAllTable(cap, WalkNode(cap, w, ns[0]), ns[1..], first);
    }
  }

  // ---- ref labels in the page -------------------------------------------------------------------------

  /** The elements that carry a ref, in document order, by name and attributes. */
  function Labelled(hs: seq<Html>): seq<(string, seq<(string, string)>)>
    decreases hs
  {
    if hs == [] then []
    else
      (match hs[0]
       case HText(_) => []
       case HElem(name, attrs, children) =>
         (if attrs != [] && attrs[|attrs| - 1].0 == REF_ATTR then [(name, attrs)] else []) + Labelled(children))
      + Labelled(hs[1..])
  }

  /** What the clickables come to in print, each with its own ref. */
  function Labels(next: nat, clicks: seq<Dom>): seq<(string, seq<(string, string)>)>
    requires forall n <- clicks :: n.Element?
  {
    seq(|clicks|, i requires 0 <= i < |clicks| => assert clicks[i] in clicks;
                                                  (OutTag(clicks[i].tag), AttrsOf(clicks[i], Some(next + i))))
  }

  lemma LabelsSplit(next: nat, x: seq<Dom>, y: seq<Dom>)
    requires forall n <- x + y :: n.Element?
    ensures Labels(next, x + y) == Labels(next, x) + Labels(next + |x|, y)
  {
    hide OutTag, AttrsOf;
    forall i {:trigger y[i]} | 0 <= i < |y| ensures Labels(next, x + y)[|x| + i] == Labels(next + |x|, y)[i] {
      assert (x + y)[|x| + i] == y[i] && next + (|x| + i) == next + |x| + i;
    }
  }

  lemma {:induction false} LabelledAppends(a: seq<Html>, b: seq<Html>)
    ensures Labelled(a + b) == Labelled(a) + Labelled(b)
  {
    if a == [] {
      assert a + b == b;
    } else {
      assert (a + b)[0] == a[0] && (a + b)[1..] == a[1..] + b;
      LabelledAppends(a[1..], b);
    }
  }

  lemma {:induction false} KeptAttrsNames(attributes: map<string, string>, names: seq<string>)
    ensures forall a <- KeptAttrs(attributes, names) :: a.0 in names
  {
    if names != [] { KeptAttrsNames(attributes, names[1..]); }
  }

  /** The ref attribute comes last, and only with a ref. */
  lemma RefComesLast(n: Dom, ref: Option<nat>)
    requires n.Element?
    ensures var attrs := AttrsOf(n, ref); ref.Some? <==> attrs != [] && attrs[|attrs| - 1].0 == REF_ATTR
  {
    KeptAttrsNames(n.attributes, KEEP_ATTRS);
    var attrs := AttrsOf(n, ref);
    if ref.None? && attrs != [] && n.href.None? { assert attrs[|attrs| - 1] in KeptAttrs(n.attributes, KEEP_ATTRS); }
  }

  /** Ref n stands on exactly one element of the page, and that is the n-th clickable's print. */
  lemma {:induction false} RefsLabelOwnElements(ns: seq<Dom>, next: nat)
    ensures forall n <- ClickablesAll(ns) :: n.Element?
    ensures SanitizeAll(ns, next).1 == next + |ClickablesAll(ns)|
    ensures Labelled(SanitizeAll(ns, next).0) == Labels(next, ClickablesAll(ns))
    decreases ns, 1
  {
    hide Labels, OutTag, AttrsOf, Sanitize, Clickables;
    ClickableAll(ns);
    if ns == [] {
      NoLabels(next);
    } else {
      var (a, k) := Sanitize(ns[0], next);
      var x, y := Clickables(ns[0]), ClickablesAll(ns[1..]);
      OneRefLabels(ns[0], next);
      RefsLabelOwnElements(ns[1..], k);
      LabelledAppends(a, SanitizeAll(ns[1..], k).0);
      LabelsSplit(next, x, y);
    }
  }

  lemma NoLabels(next: nat)
    ensures Labels(next, []) == []
  {}

  lemma LabelledOne(name: string, attrs: seq<(string, string)>, children: seq<Html>)
    ensures Labelled([HElem(name, attrs, children)])
         == (if attrs != [] && attrs[|attrs| - 1].0 == REF_ATTR then [(name, attrs)] else []) + Labelled(children)
  {
    assert [HElem(name, attrs, children)][1..] == [];
  }

  lemma {:induction false} OneRefLabels(n: Dom, next: nat)
    ensures forall c <- Clickables(n) :: c.Element?
    ensures Sanitize(n, next).1 == next + |Clickables(n)|
    ensures Labelled(Sanitize(n, next).0) == Labels(next, Clickables(n))
    decreases n, 1
  {
    hide OutTag, AttrsOf, SanitizeAll, ClickablesAll;
    ClickableOne(n);
    if n.Element? && !Skipped(n) {
      hide Labels, Labelled, Sanitize, Clickables;
      var own := if n.verdict.Some? then [n] else [];
      var (inner, l) := Inside(n, AfterRef(n, next));
      var clicks := ClicksInside(n);
      SanitizedElement(n, next);
      InsideLabels(n, AfterRef(n, next));
      RefComesLast(n, RefFor(n, next));
      OwnLabel(n, next);
      LabelledOne(OutTag(n.tag), AttrsOf(n, RefFor(n, next)), inner);
      LabelsSplit(next, own, clicks);
    }
  }

  function Inside(n: Dom, next: nat): (seq<Html>, nat)
    requires n.Element?
  {
    if n.tag in VOID_TAGS then ([], next)
    else
      var (a, k) := SanitizeAll(n.light, next);
      var (b, l) := SanitizeAll(n.shadow, k);
      (a + b, l)
  }

  function ClicksInside(n: Dom): seq<Dom>
    requires n.Element?
  {
    if n.tag in VOID_TAGS then [] else ClickablesAll(n.light) + ClickablesAll(n.shadow)
  }

  lemma SanitizedElement(n: Dom, next: nat)
    requires n.Element? && !Skipped(n)
    ensures Sanitize(n, next)
         == ([HElem(OutTag(n.tag), AttrsOf(n, RefFor(n, next)), Inside(n, AfterRef(n, next)).0)], Inside(n, AfterRef(n, next)).1)
    ensures Clickables(n) == (if n.verdict.Some? then [n] else []) + ClicksInside(n)
  {
    hide OutTag, AttrsOf, SanitizeAll, ClickablesAll;
  }

  lemma {:induction false} InsideLabels(n: Dom, next: nat)
    requires n.Element?
    ensures forall c <- ClicksInside(n) :: c.Element?
    ensures Inside(n, next).1 == next + |ClicksInside(n)|
    ensures Labelled(Inside(n, next).0) == Labels(next, ClicksInside(n))
    decreases n, 0
  {
    hide Labels, Labelled, SanitizeAll, ClickablesAll;
    if n.tag in VOID_TAGS {
      NoLabels(next);
      NoneLabelled();
    } else {
      var (a, k) := SanitizeAll(n.light, next);
      RefsLabelOwnElements(n.light, next);
      RefsLabelOwnElements(n.shadow, k);
      LabelledAppends(a, SanitizeAll(n.shadow, k).0);
      LabelsSplit(next, ClickablesAll(n.light), ClickablesAll(n.shadow));
    }
  }

  lemma NoneLabelled()
    ensures Labelled([]) == []
  {}

  lemma OwnLabel(n: Dom, next: nat)
    requires n.Element?
    ensures Labels(next, if n.verdict.Some? then [n] else [])
         == if n.verdict.Some? then [(OutTag(n.tag), AttrsOf(n, RefFor(n, next)))] else []
  {}

  // ---- reading the page back ---------------------------------------------------------------------------

  lemma {:induction false} KeptAttrsValid(attributes: map<string, string>, names: seq<string>)
    requires forall name <- names :: '=' !in name
    ensures ValidAttrs(KeptAttrs(attributes, names))
  {
    if names != [] { KeptAttrsValid(attributes, names[1..]); }
  }

  lemma AttrsValid(n: Dom, ref: Option<nat>)
    requires n.Element?
    ensures ValidAttrs(AttrsOf(n, ref))
  {
    forall name | name in KEEP_ATTRS ensures '=' !in name {}
    KeptAttrsValid(n.attributes, KEEP_ATTRS);
  }

  lemma {:induction false} SanitizedWellFormed(n: Dom, next: nat)
    ensures WellFormed(Sanitize(n, next).0)
    decreases n
  {
    hide AttrsOf, OutTag;
    if n.Element? && !Skipped(n) {
      OutTagIsVoid(n.tag);
      AttrsValid(n, RefFor(n, next));
      AllWellFormed(n.light, AfterRef(n, next));
      AllWellFormed(n.shadow, SanitizeAll(n.light, AfterRef(n, next)).1);
    }
  }

  lemma {:induction false} AllWellFormed(ns: seq<Dom>, next: nat)
    ensures WellFormed(SanitizeAll(ns, next).0)
    decreases ns
  {
    if ns != [] {
      SanitizedWellFormed(ns[0], next);
      AllWellFormed(ns[1..], Sanitize(ns[0], next).1);
    }
  }

  /** Parsing the snapshot of any page that was not truncated gives back the sanitized page:
      dropped and hidden nodes gone, adjacent text merged, attribute values as they were. */
  lemma ParsingUndoesSnapshot(cap: nat, body: seq<Dom>, firstRef: nat)
    requires !SnapshotOf(cap, body, firstRef).truncated
    ensures ParseAll(Joined(SnapshotOf(cap, body, firstRef).parts))
         == Some(([HElem("html", [], [HElem("body", [], Normalize(Page(body, firstRef)))])], ""))
  {
    hide ParseAll, RenderAll, SnapshotOf, Joined, Normalize, Page, WellFormed;
    var page := Page(body, firstRef);
    SnapshotIsPrint(cap, body, firstRef);
    PageWellFormed(body, firstRef);
    WrappedText(page);
    ParseUndoesRender(Wrapped(page));
    WrappedNormal(page);
  }

  function Wrapped(page: seq<Html>): seq<Html> {
    [HElem("html", [], [HElem("body", [], page)])]
  }

  lemma PageWellFormed(body: seq<Dom>, firstRef: nat)
    ensures WellFormed(Wrapped(Page(body, firstRef)))
  {
    AllWellFormed(body, firstRef);
    assert WellFormed([HElem("body", [], Page(body, firstRef))]);
  }

  lemma OneNormal(name: string, children: seq<Html>)
    ensures Normalize([HElem(name, [], children)]) == [HElem(name, [], Normalize(children))]
  {
    assert [HElem(name, [], children)][1..] == [];
  }

  lemma WrappedNormal(page: seq<Html>)
    ensures Normalize(Wrapped(page)) == Wrapped(Normalize(page))
  {
    hide Normalize;
    OneNormal("body", page);
    OneNormal("html", [HElem("body", [], page)]);
  }

  lemma PlainElement(name: string, children: seq<Html>)
    requires name !in VOID_TAGS
    ensures RenderAll([HElem(name, [], children)]) == "<" + name + ">" + RenderAll(children) + ("</" + name + ">")
  {
    var h := HElem(name, [], children);
    RenderOne(h);
    assert RenderAttrs([]) + ">" == ">";
    assert OpenTag(name, []) == "<" + name + ">" && CloseTag(name) == "</" + name + ">";
    Regroup3(OpenTag(name, []), RenderAll(children), CloseTag(name));
  }

  lemma WrappedText(page: seq<Html>)
    ensures RenderAll(Wrapped(page)) == BODY_OPEN + RenderAll(page) + BODY_CLOSE
  {
    hide RenderAll;
    PlainElement("body", page);
    PlainElement("html", [HElem("body", [], page)]);
    var text := RenderAll(page);
    assert "<" + "html" + ">" == "<html>" && "</" + "html" + ">" == "</html>";
    assert "<" + "body" + ">" == "<body>" && "</" + "body" + ">" == "</body>";
    assert "<html>" + ("<body>" + text + "</body>") + "</html>" == ("<html>" + "<body>") + text + ("</body>" + "</html>");
  }

  // ---- what a truncated snapshot may hold -----------------------------------------------------------------

  /** A clickable element whose opening tag alone passes the cap. */
  function Oversized(cap: nat, click: Click): Dom {
    Element(0, "div", map["id" := seq(cap, i => 'x')], None, false, Some(click), [], [])
  }

  lemma {:induction false} EscapedIsNoShorter(s: string)
    ensures |EscapeOnce(s, true)| >= |s|
  {
    if s != "" { EscapedIsNoShorter(s[1..]); }
  }

  lemma {:induction false} AttrFits(attrs: seq<(string, string)>, a: (string, string))
    requires a in attrs
    ensures |RenderAttrs(attrs)| > |a.1|
  {
    if attrs[0] == a {
      PassesAreOne(a.1);
      EscapedIsNoShorter(a.1);
    } else {
      AttrFits(attrs[1..], a);
    }
  }

  lemma {:induction false} KeptIsThere(attributes: map<string, string>, names: seq<string>, name: string)
    requires name in names && name in attributes
    ensures (name, attributes[name]) in KeptAttrs(attributes, names)
  {
    if names[0] != name { KeptIsThere(attributes, names[1..], name); }
  }

  lemma OversizedTag(cap: nat, click: Click, ref: nat)
    ensures |OpenTag("div", AttrsOf(Oversized(cap, click), Some(ref)))| > cap
  {
    hide RenderAttrs, KeptAttrs, EscapeAttr;
    var n := Oversized(cap, click);
    assert ("id", n.attributes["id"]) in AttrsOf(n, Some(ref)) by {
      assert KEEP_ATTRS[1] == "id";
      KeptIsThere(n.attributes, KEEP_ATTRS, "id");
    }
    AttrFits(AttrsOf(n, Some(ref)), ("id", n.attributes["id"]));
  }

  lemma OversizedWalk(cap: nat, w: Walk, click: Click)
    requires !w.truncated && w.size + 6 <= cap
    ensures WalkNode(cap, w, Oversized(cap, click))
         == AssignRef(w, Oversized(cap, click)).(truncated := true, parts := w.parts + ["</div>"], size := w.size + 6)
  {
    hide OpenTag, AttrsOf;
    OversizedTag(cap, click, w.nextRef);
    assert OutTag("div") == "div" && CloseTag("div") == "</div>";
  }

  lemma TornText()
    ensures Joined([BODY_OPEN] + ["</div>"] + [BODY_CLOSE]) == "<html><body></div></body></html>"
  {
    hide Joined;
    JoinedAppends([], BODY_OPEN);
    JoinedAppends([BODY_OPEN], "</div>");
    JoinedAppends([BODY_OPEN] + ["</div>"], BODY_CLOSE);
    NothingJoined();
    assert [] + [BODY_OPEN] == [BODY_OPEN];
  }

  lemma PlainOpening(name: string)
    ensures OpenTag(name, []) == "<" + name + ">"
  {
    assert RenderAttrs([]) + ">" == ">";
  }

  lemma EndIsRead(s: string)
    requires "</" <= s
    ensures ParseAll(s) == Some(([], s))
  {}

  lemma BadElement(s: string)
    requires s != "" && s[0] == '<' && !("</" <= s) && ParseElement(s).None?
    ensures ParseAll(s).None?
  {}

  /** An opening tag with text inside it that ends in another element's closing tag. */
  lemma WrongEnd(name: string, inside: string)
    requires ValidName(name) && name !in VOID_TAGS
    requires ParseAll(inside).None? || !(CloseTag(name) <= ParseAll(inside).value.1)
    ensures ParseAll(OpenTag(name, []) + inside).None?
  {
    hide ParseAll, ParseElement, OpenTag, CloseTag;
    OpenTagRead(name, [], inside);
    BadElement(OpenTag(name, []) + inside);
  }

  lemma TornPieces(inner: string)
    requires inner == "</div></body></html>"
    ensures "</" <= inner && !(CloseTag("body") <= inner)
    ensures OpenTag("html", []) + (OpenTag("body", []) + inner) == "<html><body></div></body></html>"
  {
    hide OpenTag;
    PlainOpening("body");
    PlainOpening("html");
    assert "<" + "html" + ">" == "<html>" && "<" + "body" + ">" == "<body>";
    assert inner[2] == 'd' && CloseTag("body")[2] == 'b';
  }

  lemma PlainNames()
    ensures ValidName("html") && ValidName("body") && "html" !in VOID_TAGS && "body" !in VOID_TAGS
  {}

  lemma TornIsNotRead()
    ensures ParseAll("<html><body></div></body></html>").None?
  {
    hide ParseAll, OpenTag, CloseTag, ValidName;
    var inner := "</div></body></html>";
    TornPieces(inner);
    PlainNames();
    EndIsRead(inner);
    WrongEnd("body", inner);
    WrongEnd("html", OpenTag("body", []) + inner);
  }

  /** A truncated snapshot need not be well formed, and its table may hold a ref that the markup
      does not: the opening tag is left out, its closing tag is not. */
  lemma TruncatedIsTorn(cap: nat, click: Click)
    requires cap >= 32
    ensures var w := SnapshotOf(cap, [Oversized(cap, click)], 1);
      && w.truncated
      && Joined(w.parts) == "<html><body></div></body></html>"
      && ParseAll(Joined(w.parts)).None?
      && w.refs == [RefInfo(1, click)] && w.elements == map[1 := 0]
  {
    hide WalkNode, ParseAll, Joined;
    var n := Oversized(cap, click);
    var begun := Push(cap, Walk([], 0, false, [], map[], 1), BODY_OPEN);
    OversizedWalk(cap, begun, click);
    assert WalkAll(cap, begun, [n]) == WalkNode(cap, begun, n) by { assert [n][1..] == []; }
    assert [] + [BODY_OPEN] == [BODY_OPEN];
    TornText();
    TornIsNotRead();
  }
}
