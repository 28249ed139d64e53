// Which nodes of the page a snapshot shows.
module SnapshotNodes {
  import opened Results
  import opened Digits
  import opened StableSort
  import opened Html
  import opened HtmlParser
  import opened Snapshot
  import opened SnapshotLaws
  import opened SnapshotCut

  // ---- the page, node by node -----------------------------------------------------------------

  /** A node where it stands: the elements around it, outermost first. */
  datatype Place = Place(above: seq<Dom>, node: Dom)

  /** Every node in document order, an element's own children before those of its shadow root. */
  function Places(n: Dom, above: seq<Dom>): seq<Place>
    decreases n
  {
    [Place(above, n)] + if n.Element? then PlacesAll(n.light, above + [n]) + PlacesAll(n.shadow, above + [n]) else []
  }

  function PlacesAll(ns: seq<Dom>, above: seq<Dom>): seq<Place>
    decreases ns
  {
    if ns == [] then [] else Places(ns[0], above) + PlacesAll(ns[1..], above)
  }

  /** Scripts, styles, media, form controls and what belongs into the head. */
  predicate Dropped(tag: string) {
    || tag == "script" || tag == "style" || tag == "noscript" || tag == "template"
    || tag == "svg" || tag == "canvas" || tag == "iframe" || tag == "frame" || tag == "object" || tag == "embed"
    || tag == "video" || tag == "audio" || tag == "picture" || tag == "source" || tag == "track" || tag == "map"
    || tag == "input" || tag == "textarea" || tag == "select" || tag == "option" || tag == "datalist"
    || tag == "meta" || tag == "link" || tag == "head" || tag == "title" || tag == "base"
  }

  predicate Gone(n: Dom) {
    n.Element? && (n.hidden || Dropped(n.tag))
  }

  predicate Childless(n: Dom) {
    n.Element? && (n.tag == "br" || n.tag == "hr" || n.tag == "img" || n.tag == "wbr")
  }

  /** A text or element that is neither hidden nor dropped, nor inside what is, nor inside a void element. */
  predicate Shows(p: Place) {
    !p.node.OtherNode? && !Gone(p.node) && forall a <- p.above :: !Gone(a) && !Childless(a)
  }

  lemma GoneIsSkipped(n: Dom)
    requires n.Element?
    ensures Gone(n) <==> Skipped(n)
    ensures Childless(n) <==> n.tag in VOID_TAGS
  {}

  ghost predicate Exposed(above: seq<Dom>) {
    forall a <- above :: !Gone(a) && !Childless(a)
  }

  lemma {:induction false} FilterAppends<T>(p: T -> bool, a: seq<T>, b: seq<T>)
    ensures Filter(p, a + b) == Filter(p, a) + Filter(p, b)
  {
    if a == [] {
      assert a + b == b;
    } else {
      assert (a + b)[0] == a[0] && (a + b)[1..] == a[1..] + b;
      FilterAppends(p, a[1..], b);
    }
  }

  lemma {:induction false} NothingShows(n: Dom, above: seq<Dom>)
    requires !Exposed(above)
    ensures Filter(Shows, Places(n, above)) == []
    decreases n
  {
    hide Gone, Childless;
    FilterAppends(Shows, [Place(above, n)], Places(n, above)[1..]);
    if n.Element? {
      var inside := above + [n];
      assert !Exposed(inside) by { StaysClosed(above, n); }
      NoneShow(n.light, inside);
      NoneShow(n.shadow, inside);
      FilterAppends(Shows, PlacesAll(n.light, inside), PlacesAll(n.shadow, inside));
    }
  }

  lemma StaysClosed(above: seq<Dom>, n: Dom)
    requires !Exposed(above)
    ensures !Exposed(above + [n])
  {
    var a :| a in above && !(!Gone(a) && !Childless(a));
    assert a in above + [n];
  }

  lemma {:induction false} NoneShow(ns: seq<Dom>, above: seq<Dom>)
    requires !Exposed(above)
    ensures Filter(Shows, PlacesAll(ns, above)) == []
    decreases ns
  {
    hide Places, Shows;
    if ns != [] {
      NothingShows(ns[0], above);
      NoneShow(ns[1..], above);
      FilterAppends(Shows, Places(ns[0], above), PlacesAll(ns[1..], above));
    }
  }

  /** What shows of a node, and around it. */
  lemma ShowsOf(n: Dom, above: seq<Dom>)
    requires Exposed(above)
    ensures var shown, inside := Filter(Shows, Places(n, above)), above + [n];
      if n.TextNode? then shown == [Place(above, n)]
      else if n.OtherNode? || Gone(n) then shown == []
      else if Childless(n) then shown == [Place(above, n)]
      else
        && Exposed(inside)
        && shown == [Place(above, n)] + (Filter(Shows, PlacesAll(n.light, inside)) + Filter(Shows, PlacesAll(n.shadow, inside)))
  {
    assert n.TextNode? ==> !Gone(n) && !Childless(n);
    hide Gone, Childless;
    var self, rest := [Place(above, n)], Places(n, above)[1..];
    assert self[1..] == [];
    assert Places(n, above) == self + rest;
    FilterAppends(Shows, self, rest);
    if n.Element? {
      var inside := above + [n];
      FilterAppends(Shows, PlacesAll(n.light, inside), PlacesAll(n.shadow, inside));
      if Gone(n) || Childless(n) {
        assert n in inside;
        NoneShow(n.light, inside);
        NoneShow(n.shadow, inside);
      } else {
        assert forall a <- inside :: a in above || a == n;
      }
    }
  }

  lemma ShowsOfAll(ns: seq<Dom>, above: seq<Dom>)
    requires ns != []
    ensures Filter(Shows, PlacesAll(ns, above)) == Filter(Shows, Places(ns[0], above)) + Filter(Shows, PlacesAll(ns[1..], above))
  {
    hide Places, Shows;
    FilterAppends(Shows, Places(ns[0], above), PlacesAll(ns[1..], above));
  }

  // ---- what is printed, truncated or not ------------------------------------------------------------

  function NodesAt(places: seq<Place>): seq<Dom> {
    seq(|places|, i requires 0 <= i < |places| => places[i].node)
  }

  lemma NodesAtAppends(a: seq<Place>, b: seq<Place>)
    ensures NodesAt(a + b) == NodesAt(a) + NodesAt(b)
  {}

  function NodeOf(p: Piece): seq<Dom> {
    match p
    case Words(t) => [TextNode(t)]
    case Open(element, _) => [element]
    case _ => []
  }

  /** The nodes whose text or opening tag is among the pieces. */
  function NodesOf(ps: seq<Piece>): seq<Dom> {
    if ps == [] then [] else NodeOf(ps[0]) + NodesOf(ps[1..])
  }

  lemma {:induction false} NodesOfAppends(a: seq<Piece>, b: seq<Piece>)
    ensures NodesOf(a + b) == NodesOf(a) + NodesOf(b)
  {
    if a == [] {
      assert a + b == b;
    } else {
      assert (a + b)[0] == a[0] && (a + b)[1..] == a[1..] + b;
      NodesOfAppends(a[1..], b);
    }
  }

  lemma NodesOfOne(p: Piece)
    ensures NodesOf([p]) == NodeOf(p)
  {
    assert [p][1..] == [];
  }

  lemma NodesOfNone()
    ensures NodesOf([]) == [] == NodesAt([])
  {}

  /** The pieces of an element that shows are its opening tag, those inside it, and its closing tag. */
  lemma NodesOfElement(open: Piece, a: seq<Piece>, b: seq<Piece>, shut: Piece)
    requires open.Open? && shut.Shut?
    ensures NodesOf([open] + (a + (b + [shut]))) == [open.element] + (NodesOf(a) + NodesOf(b))
  {
    NodesOfOne(open);
    NodesOfOne(shut);
    NodesOfAppends(b, [shut]);
    NodesOfAppends(a, b + [shut]);
    NodesOfAppends([open], a + (b + [shut]));
  }

  lemma NodesAtElement(place: Place, a: seq<Place>, b: seq<Place>)
    ensures NodesAt([place]) == [place.node]
    ensures NodesAt([place] + (a + b)) == [place.node] + (NodesAt(a) + NodesAt(b))
  {}

  lemma {:induction false} PiecesShow(n: Dom, next: nat, at: nat, above: seq<Dom>)
    requires Exposed(above)
    ensures NodesOf(Pieces(n, next, at)) == NodesAt(Filter(Shows, Places(n, above)))
    decreases n
  {
    hide Shows, Places, PlacesAll, OutTag, Gone, Childless, Skipped, Filter, NodesAt, NodesOf, PiecesAll, SanitizeAll;
    ShowsOf(n, above);
    NodesAtElement(Place(above, n), [], []);
    NodesOfNone();
    if n.TextNode? {
      NodesOfOne(Words(n.text));
    } else if n.Element? {
      GoneIsSkipped(n);
      NodesOfOne(Open(n, RefFor(n, next)));
      if !Gone(n) && !Childless(n) {
        var inside := above + [n];
        var k := SanitizeAll(n.light, AfterRef(n, next)).1;
        var a := PiecesAll(n.light, AfterRef(n, next), at + 1);
        var b := PiecesAll(n.shadow, k, at + 1 + |a|);
        AllPiecesShow(n.light, AfterRef(n, next), at + 1, inside);
        AllPiecesShow(n.shadow, k, at + 1 + |a|, inside);
        NodesOfElement(Open(n, RefFor(n, next)), a, b, Shut(OutTag(n.tag), at));
        NodesAtElement(Place(above, n), Filter(Shows, PlacesAll(n.light, inside)), Filter(Shows, PlacesAll(n.shadow, inside)));
      }
    }
  }

  lemma {:induction false} AllPiecesShow(ns: seq<Dom>, next: nat, at: nat, above: seq<Dom>)
    requires Exposed(above)
    ensures NodesOf(PiecesAll(ns, next, at)) == NodesAt(Filter(Shows, PlacesAll(ns, above)))
    decreases ns
  {
    hide Shows, Places, Pieces, Sanitize, Exposed;
    if ns != [] {
      var a := Pieces(ns[0], next, at);
      var k := Sanitize(ns[0], next).1;
      PiecesShow(ns[0], next, at, above);
      AllPiecesShow(ns[1..], k, at + |a|, above);
      NodesOfAppends(a, PiecesAll(ns[1..], k, at + |a|));
      ShowsOfAll(ns, above);
      NodesAtAppends(Filter(Shows, Places(ns[0], above)), Filter(Shows, PlacesAll(ns[1..], above)));
    }
  }

  /** The nodes of the page that show, in document order. */
  function Visible(body: seq<Dom>): seq<Place> {
    Filter(Shows, PlacesAll(body, []))
  }

  /** The parts that a snapshot is made of are those of exactly the nodes that show, each once and in
      document order; so nothing hidden or dropped is printed, whatever the cap, and no such element
      has a ref. */
  lemma ScriptShows(body: seq<Dom>, firstRef: nat)
    ensures NodesOf(Script(body, firstRef)) == NodesAt(Visible(body))
    ensures forall p <- Visible(body) :: Shows(p) && p in PlacesAll(body, [])
  {
    hide Shows, PlacesAll, PiecesAll;
    AllPiecesShow(body, firstRef, 1, []);
    NodesOfOne(Begin);
    NodesOfOne(End);
    var ps := PiecesAll(body, firstRef, 1);
    NodesOfAppends(ps, [End]);
    NodesOfAppends([Begin], ps + [End]);
    FilterKeeps(Shows, PlacesAll(body, []));
  }

  lemma {:induction false} FilterKeeps<T>(p: T -> bool, s: seq<T>)
    ensures forall x <- Filter(p, s) :: p(x) && x in s
  {
    if s != [] {
      FilterKeeps(p, s[1..]);
      assert forall x <- s[1..] :: x in s;
    }
  }

  predicate Clickable(p: Place) {
    p.node.Element? && p.node.verdict.Some?
  }

  lemma {:induction false} ClickablesShow(n: Dom, above: seq<Dom>)
    requires Exposed(above)
    ensures Clickables(n) == NodesAt(Filter(Clickable, Filter(Shows, Places(n, above))))
    decreases n
  {
    hide Shows, Places, PlacesAll, Gone, Childless, Skipped, Filter, NodesAt, ClickablesAll;
    ShowsOf(n, above);
    var self := [Place(above, n)];
    NodesAtElement(Place(above, n), [], []);
    NodesOfNone();
    FilterOne(Clickable, Place(above, n));
    if n.Element? {
      GoneIsSkipped(n);
      if !Gone(n) && !Childless(n) {
        var inside := above + [n];
        var light, shadow := Filter(Shows, PlacesAll(n.light, inside)), Filter(Shows, PlacesAll(n.shadow, inside));
        AllClickablesShow(n.light, inside);
        AllClickablesShow(n.shadow, inside);
        FilterAppends(Clickable, light, shadow);
        FilterAppends(Clickable, self, light + shadow);
        NodesAtAppends(Filter(Clickable, light), Filter(Clickable, shadow));
        NodesAtAppends(Filter(Clickable, self), Filter(Clickable, light + shadow));
      }
    }
  }

  lemma FilterOne<T>(p: T -> bool, x: T)
    ensures Filter(p, []) == [] && Filter(p, [x]) == if p(x) then [x] else []
  {
    assert [x][1..] == [];
  }

  lemma {:induction false} AllClickablesShow(ns: seq<Dom>, above: seq<Dom>)
    requires Exposed(above)
    ensures ClickablesAll(ns) == NodesAt(Filter(Clickable, Filter(Shows, PlacesAll(ns, above))))
    decreases ns
  {
    hide Shows, Places, Clickables, Exposed, Clickable;
    if ns != [] {
      ClickablesShow(ns[0], above);
      AllClickablesShow(ns[1..], above);
      ShowsOfAll(ns, above);
      var a, b := Filter(Shows, Places(ns[0], above)), Filter(Shows, PlacesAll(ns[1..], above));
      FilterAppends(Clickable, a, b);
      NodesAtAppends(Filter(Clickable, a), Filter(Clickable, b));
    }
  }

  /** What gets refs, in this order: the elements that show and that the click policy takes. */
  lemma RefsAreFor(body: seq<Dom>)
    ensures ClickablesAll(body) == NodesAt(Filter(Clickable, Visible(body)))
  {
    AllClickablesShow(body, []);
  }

  /** Whatever is printed, and whatever element the table names, is one that shows somewhere. */
  lemma OnlyVisible(cap: nat, body: seq<Dom>, firstRef: nat)
    ensures var ps, printed := Script(body, firstRef), Printed(cap, body, firstRef);
      forall i <- printed :: i < |ps|
        && (ps[i].Words? ==> exists p <- Visible(body) :: p.node == TextNode(ps[i].text))
        && (ps[i].Open? ==> exists p <- Visible(body) :: p.node == ps[i].element)
    ensures var w := SnapshotOf(cap, body, firstRef);
      forall ref <- w.elements :: exists p <- Visible(body) :: p.node.Element? && p.node.identity == w.elements[ref]
  {
    hide Script, Visible, Printed, Shows, SnapshotOf, Misfit, Texts, Listed;
    ScriptShows(body, firstRef);
    PrintedExactly(cap, body, firstRef);
    TableNamesOwn(cap, body, firstRef);
    var ps, w := Script(body, firstRef), SnapshotOf(cap, body, firstRef);
    forall i: nat | i < |ps|
      ensures ps[i].Words? ==> exists p <- Visible(body) :: p.node == TextNode(ps[i].text)
      ensures ps[i].Open? ==> exists p <- Visible(body) :: p.node == ps[i].element
    {
      PieceHasPlace(ps, i, Visible(body));
    }
    forall ref | ref in w.elements
      ensures exists p <- Visible(body) :: p.node.Element? && p.node.identity == w.elements[ref]
    {
      var c := Misfit(cap, ps);
      var given := ps[..if c < |ps| then c + 1 else c];
      var q :| q in given && Carries(q, ref);
      assert NamesOwn(w.elements, q) && q in ps;
      var i: nat :| i < |ps| && ps[i] == q;
    }
  }

  lemma PieceHasPlace(ps: seq<Piece>, i: nat, places: seq<Place>)
    requires i < |ps| && NodesOf(ps) == NodesAt(places)
    ensures ps[i].Words? ==> exists p <- places :: p.node == TextNode(ps[i].text)
    ensures ps[i].Open? ==> exists p <- places :: p.node == ps[i].element
  {
    PieceIsNode(ps, i);
    if ps[i].Words? || ps[i].Open? {
      var n := if ps[i].Words? then TextNode(ps[i].text) else ps[i].element;
      var k :| 0 <= k < |NodesAt(places)| && NodesAt(places)[k] == n;
      assert places[k] in places && places[k].node == n;
    }
  }

  lemma {:induction false} PieceIsNode(ps: seq<Piece>, i: nat)
    requires i < |ps|
    ensures ps[i].Words? ==> TextNode(ps[i].text) in NodesOf(ps)
    ensures ps[i].Open? ==> ps[i].element in NodesOf(ps)
  {
    if i > 0 { PieceIsNode(ps[1..], i - 1); }
  }

  // ---- what they are printed as ------------------------------------------------------------------------

  const ATTRIBUTES := ["class", "id", "role", "aria-label", "datetime", "alt", "title", "rel", "href", "data-tsforge-ref"]

  /** The value of an attribute in print, if the element has it there. */
  function Printing(n: Dom, ref: Option<nat>, name: string): Option<string>
    requires n.Element?
  {
    if name == "href" then n.href
    else if name == "data-tsforge-ref" then if ref.Some? then Some(Decimal(ref.value)) else None
    else if name in n.attributes then Some(n.attributes[name]) else None
  }

  function Listing(n: Dom, ref: Option<nat>, names: seq<string>): seq<(string, string)>
    requires n.Element?
  {
    if names == [] then []
    else
      var v := Printing(n, ref, names[0]);
      (if v.Some? then [(names[0], v.value)] else []) + Listing(n, ref, names[1..])
  }

  lemma {:induction false} ListingAppends(n: Dom, ref: Option<nat>, a: seq<string>, b: seq<string>)
    requires n.Element?
    ensures Listing(n, ref, a + b) == Listing(n, ref, a) + Listing(n, ref, b)
  {
    if a == [] {
      assert a + b == b;
    } else {
      assert (a + b)[0] == a[0] && (a + b)[1..] == a[1..] + b;
      ListingAppends(n, ref, a[1..], b);
    }
  }

  lemma {:induction false} KeptIsListing(n: Dom, ref: Option<nat>, names: seq<string>)
    requires n.Element? && forall name <- names :: name != "href" && name != "data-tsforge-ref"
    ensures KeptAttrs(n.attributes, names) == Listing(n, ref, names)
  {
    if names != [] {
      assert names[0] in names && forall name <- names[1..] :: name in names;
      KeptIsListing(n, ref, names[1..]);
    }
  }

  /** An element prints those of the listed attributes that it has, in that order: its own, the resolved
      link, and its ref. */
  lemma AttributesAre(n: Dom, ref: Option<nat>)
    requires n.Element?
    ensures AttrsOf(n, ref) == Listing(n, ref, ATTRIBUTES)
  {
    var own := ["class", "id", "role", "aria-label", "datetime", "alt", "title", "rel"];
    KeptIsListing(n, ref, own);
    assert ATTRIBUTES == own + (["href"] + ["data-tsforge-ref"]);
    ListingAppends(n, ref, own, ["href"] + ["data-tsforge-ref"]);
    ListingAppends(n, ref, ["href"], ["data-tsforge-ref"]);
    assert ["href"][1..] == [] && ["data-tsforge-ref"][1..] == [];
  }

  /** Lower case letters and digits after a letter; any other name, as that of a custom element, becomes
      a div. */
  predicate Plain(tag: string) {
    tag != "" && 'a' <= tag[0] <= 'z' && forall c <- tag :: 'a' <= c <= 'z' || '0' <= c <= '9'
  }

  datatype Line = Line(depth: nat, shown: Label)

  datatype Label = Text(text: string) | Tag(name: string, attrs: seq<(string, string)>)

  /** A page in print, node by node, without its refs. */
  function Outline(hs: seq<Html>, depth: nat): seq<Line>
    decreases hs
  {
    if hs == [] then [] else Outlined(hs[0], depth) + Outline(hs[1..], depth)
  }

  function Outlined(h: Html, depth: nat): seq<Line>
    decreases h
  {
    match h
    case HText(t) => [Line(depth, Text(t))]
    case HElem(name, attrs, children) => [Line(depth, Tag(name, Unreferred(attrs)))] + Outline(children, depth + 1)
  }

  function Unreferred(attrs: seq<(string, string)>): seq<(string, string)> {
    if attrs != [] && attrs[|attrs| - 1].0 == "data-tsforge-ref" then attrs[..|attrs| - 1] else attrs
  }

  function LineOf(p: Place): Line
    requires !p.node.OtherNode?
  {
    Line(|p.above|,
      match p.node
      case TextNode(t) => Text(t)
      case Element(_, tag, _, _, _, _, _, _) => Tag(if Plain(tag) then tag else "div", Listing(p.node, None, ATTRIBUTES)))
  }

  function Lines(places: seq<Place>): seq<Line>
    requires forall p <- places :: !p.node.OtherNode?
  {
    seq(|places|, i requires 0 <= i < |places| => assert places[i] in places; LineOf(places[i]))
  }

  lemma {:induction false} OutlineAppends(a: seq<Html>, b: seq<Html>, depth: nat)
    ensures Outline(a + b, depth) == Outline(a, depth) + Outline(b, depth)
  {
    if a == [] {
      assert a + b == b;
    } else {
      assert (a + b)[0] == a[0] && (a + b)[1..] == a[1..] + b;
      OutlineAppends(a[1..], b, depth);
    }
  }

  lemma TagIs(n: Dom, ref: Option<nat>)
    requires n.Element?
    ensures OutTag(n.tag) == (if Plain(n.tag) then n.tag else "div")
    ensures Unreferred(AttrsOf(n, ref)) == Listing(n, None, ATTRIBUTES)
  {
    AttributesAre(n, None);
    RefComesLast(n, ref);
    RefComesLast(n, None);
    assert forall c :: IsNameChar(c) <==> 'a' <= c <= 'z' || '0' <= c <= '9';
    if ref.Some? {
      assert AttrsOf(n, ref) == AttrsOf(n, None) + [(REF_ATTR, Decimal(ref.value))];
    }
  }

  lemma OutlineOne(h: Html, depth: nat)
    ensures Outline([h], depth) == Outlined(h, depth)
  {
    hide Outlined;
    assert [h][1..] == [];
  }

  lemma {:induction false} NodeOutlined(n: Dom, next: nat, above: seq<Dom>)
    requires Exposed(above)
    ensures forall p <- Filter(Shows, Places(n, above)) :: !p.node.OtherNode?
    ensures Outline(Sanitize(n, next).0, |above|) == Lines(Filter(Shows, Places(n, above)))
    decreases n
  {
    hide Places, OutTag, AttrsOf, Gone, Childless, Skipped, Unreferred, Listing, Plain, Outline;
    FilterKeeps(Shows, Places(n, above));
    ShowsOf(n, above);
    if n.TextNode? {
      OutlineOne(HText(n.text), |above|);
      LinesOne(Place(above, n));
    } else if n.Element? {
      GoneIsSkipped(n);
      TagIs(n, RefFor(n, next));
      if Gone(n) {
        NothingOutlined(|above|);
      } else if Childless(n) {
        OutlineOne(Sanitize(n, next).0[0], |above|);
        NothingOutlined(|above| + 1);
        LinesOne(Place(above, n));
      } else {
        var inside := above + [n];
        var (a, k) := SanitizeAll(n.light, AfterRef(n, next));
        var (b, l) := SanitizeAll(n.shadow, k);
        AllOutlined(n.light, AfterRef(n, next), inside);
        AllOutlined(n.shadow, k, inside);
        OutlineAppends(a, b, |inside|);
        OutlineOne(Sanitize(n, next).0[0], |above|);
        var light, shadow := Filter(Shows, PlacesAll(n.light, inside)), Filter(Shows, PlacesAll(n.shadow, inside));
        LinesOne(Place(above, n));
        LinesAppend([Place(above, n)], light + shadow);
        LinesAppend(light, shadow);
      }
    } else {
      NothingOutlined(|above|);
    }
  }

  lemma NothingOutlined(depth: nat)
    ensures Outline([], depth) == [] && Lines([]) == []
  {}

  lemma LinesOne(p: Place)
    requires !p.node.OtherNode?
    ensures Lines([p]) == [LineOf(p)]
  {}

  lemma LinesAppend(a: seq<Place>, b: seq<Place>)
    requires forall p <- a + b :: !p.node.OtherNode?
    ensures (forall p <- a :: !p.node.OtherNode?) && (forall p <- b :: !p.node.OtherNode?)
    ensures Lines(a + b) == Lines(a) + Lines(b)
  {
    hide LineOf;
    assert forall p <- a :: p in a + b;
    assert forall p <- b :: p in a + b;
  }

  lemma {:induction false} AllOutlined(ns: seq<Dom>, next: nat, above: seq<Dom>)
    requires Exposed(above)
    ensures forall p <- Filter(Shows, PlacesAll(ns, above)) :: !p.node.OtherNode?
    ensures Outline(SanitizeAll(ns, next).0, |above|) == Lines(Filter(Shows, PlacesAll(ns, above)))
    decreases ns
  {
    hide Places, Sanitize, Exposed, LineOf;
    FilterKeeps(Shows, PlacesAll(ns, above));
    if ns != [] {
      NodeOutlined(ns[0], next, above);
      AllOutlined(ns[1..], Sanitize(ns[0], next).1, above);
      OutlineAppends(Sanitize(ns[0], next).0, SanitizeAll(ns[1..], Sanitize(ns[0], next).1).0, |above|);
      ShowsOfAll(ns, above);
    }
  }

  /** The page that an untruncated snapshot prints: exactly the nodes that show, in document order and
      nested as they are, each text as it is and each element by its name and its listed attributes. */
  lemma PageShows(cap: nat, body: seq<Dom>, firstRef: nat)
    ensures forall p <- Visible(body) :: !p.node.OtherNode?
    ensures Outline(Page(body, firstRef), 0) == Lines(Visible(body))
    ensures var w := SnapshotOf(cap, body, firstRef);
      !w.truncated ==> Joined(w.parts) == "<html><body>" + RenderAll(Page(body, firstRef)) + "</body></html>"
  {
    hide SnapshotOf, Joined, RenderAll, Outline;
    AllOutlined(body, firstRef, []);
    SnapshotIsPrint(cap, body, firstRef);
  }
}
