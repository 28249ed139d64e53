// What the cap does to a snapshot, exactly.
module SnapshotCut {
  import opened Results
  import opened Html
  import opened HtmlParser
  import opened HtmlTokens
  import opened Snapshot
  import opened SnapshotLaws

  type ElementNode = n: Dom | n.Element? witness Element(0, "div", map[], None, false, None, [], [])

  /** What the walk pushes. `opener` is the place, in the list of all pieces, of the tag that is shut. */
  datatype Piece =
    | Begin
    | Words(text: string)
    | Open(element: ElementNode, ref: Option<nat>)
    | Shut(name: string, opener: nat)
    | End

  function PieceText(p: Piece): string {
    match p
    case Begin => BODY_OPEN
    case Words(text) => EscapeText(text)
    case Open(element, ref) => OpenTag(OutTag(element.tag), AttrsOf(element, ref))
    case Shut(name, _) => CloseTag(name)
    case End => BODY_CLOSE
  }

  /** An opening tag that gets a closing one. */
  predicate Blocks(p: Piece) {
    p.Open? && p.element.tag !in VOID_TAGS
  }

  predicate Carries(p: Piece, ref: nat) {
    p.Open? && p.ref == Some(ref)
  }

  // ---- the pieces of a page ---------------------------------------------------------------------

  /** The pieces of a node when nothing is cut, the first of them at place `at`. */
  function Pieces(n: Dom, next: nat, at: nat): seq<Piece>
    decreases n
  {
    match n
    case TextNode(t) => [Words(t)]
    case OtherNode => []
    case Element(_, tag, _, _, _, _, light, shadow) =>
      if Skipped(n) then []
      else if tag in VOID_TAGS then [Open(n, RefFor(n, next))]
      else
        var a := PiecesAll(light, AfterRef(n, next), at + 1);
        var b := PiecesAll(shadow, SanitizeAll(light, AfterRef(n, next)).1, at + 1 + |a|);
        [Open(n, RefFor(n, next))] + (a + (b + [Shut(OutTag(tag), at)]))
  }

  function PiecesAll(ns: seq<Dom>, next: nat, at: nat): seq<Piece>
    decreases ns
  {
    if ns == [] then []
    else
      var a := Pieces(ns[0], next, at);
      a + PiecesAll(ns[1..], Sanitize(ns[0], next).1, at + |a|)
  }

  /** The pieces of the whole page. */
  function Script(body: seq<Dom>, firstRef: nat): seq<Piece> {
    [Begin] + (PiecesAll(body, firstRef, 1) + [End])
  }

  function Length(ps: seq<Piece>): nat {
    if ps == [] then 0 else |PieceText(ps[0])| + Length(ps[1..])
  }

  /** The place of the first piece that ends beyond the cap. */
  function Misfit(cap: nat, ps: seq<Piece>): (c: nat)
    ensures c <= |ps|
  {
    if ps == [] || |PieceText(ps[0])| > cap then 0 else 1 + Misfit(cap - |PieceText(ps[0])|, ps[1..])
  }

  lemma {:induction false} LengthUpTo(ps: seq<Piece>, k: nat)
    requires k < |ps|
    ensures Length(ps[..k + 1]) == Length(ps[..k]) + |PieceText(ps[k])|
  {
    hide PieceText;
    if k == 0 {
      assert ps[..1][1..] == [];
    } else {
      LengthUpTo(ps[1..], k - 1);
      assert ps[..k + 1][1..] == ps[1..][..k] && ps[..k][1..] == ps[1..][..k - 1];
    }
  }

  lemma {:induction false} LengthGrows(ps: seq<Piece>, i: nat, j: nat)
    requires i <= j <= |ps|
    ensures Length(ps[..i]) <= Length(ps[..j])
    decreases j
  {
    hide Length, PieceText;
    if i < j {
      LengthUpTo(ps, j - 1);
      LengthGrows(ps, i, j - 1);
    }
  }

  lemma {:induction false} MisfitIsFirst(cap: nat, ps: seq<Piece>)
    ensures var c := Misfit(cap, ps);
      Length(ps[..c]) <= cap && (c < |ps| ==> Length(ps[..c + 1]) > cap)
  {
    hide PieceText;
    if ps != [] {
      LengthUpTo(ps, 0);
      if |PieceText(ps[0])| <= cap {
        var rest := cap - |PieceText(ps[0])|;
        MisfitIsFirst(rest, ps[1..]);
        var c := Misfit(rest, ps[1..]);
        assert ps[..c + 1][1..] == ps[1..][..c];
        if c < |ps| - 1 { assert ps[..c + 2][1..] == ps[1..][..c + 1]; }
      }
    }
  }

  // ---- running the pieces --------------------------------------------------------------------------

  /** `cut` is the place of the first piece left out, `printed` the places of those written. */
  datatype Run = Run(walk: Walk, cut: Option<nat>, printed: seq<nat>)

  /** After a cut, only the tags still open are shut: the ancestors' and the cut element's own. */
  predicate Attempted(cut: Option<nat>, p: Piece) {
    cut.None? || p.End? || (p.Shut? && p.opener <= cut.value)
  }

  function Step(cap: nat, r: Run, p: Piece, at: nat): Run {
    if !Attempted(r.cut, p) then r
    else
      var w := if p.Open? then AssignRef(r.walk, p.element) else r.walk;
      var fits := w.size + |PieceText(p)| <= cap;
      Run(Push(cap, w, PieceText(p)),
          if fits || r.cut.Some? then r.cut else Some(at),
          if fits then r.printed + [at] else r.printed)
  }

  function RunAll(cap: nat, r: Run, ps: seq<Piece>, at: nat): Run
    decreases ps
  {
    if ps == [] then r else RunAll(cap, Step(cap, r, ps[0], at), ps[1..], at + 1)
  }

  function Start(firstRef: nat): Run {
    Run(Walk([], 0, false, [], map[], firstRef), None, [])
  }

  /** The run of the whole page. */
  function RunOf(cap: nat, body: seq<Dom>, firstRef: nat): Run {
    RunAll(cap, Start(firstRef), Script(body, firstRef), 0)
  }

  lemma {:induction false} RunAppends(cap: nat, r: Run, a: seq<Piece>, b: seq<Piece>, at: nat)
    ensures RunAll(cap, r, a + b, at) == RunAll(cap, RunAll(cap, r, a, at), b, at + |a|)
    decreases a
  {
    hide Step;
    if a == [] {
      assert a + b == b;
    } else {
      assert (a + b)[0] == a[0] && (a + b)[1..] == a[1..] + b;
      RunAppends(cap, Step(cap, r, a[0], at), a[1..], b, at + 1);
    }
  }

  lemma RunOne(cap: nat, r: Run, p: Piece, at: nat)
    ensures RunAll(cap, r, [p], at) == Step(cap, r, p, at)
  {
    hide Step;
    assert [p][1..] == [];
    assert RunAll(cap, Step(cap, r, p, at), [], at + 1) == Step(cap, r, p, at);
  }

  lemma {:induction false} RunSkips(cap: nat, r: Run, ps: seq<Piece>, at: nat)
    requires forall p <- ps :: !Attempted(r.cut, p)
    ensures RunAll(cap, r, ps, at) == r
    decreases ps
  {
    if ps != [] { RunSkips(cap, r, ps[1..], at + 1); }
  }

  // ---- tags are shut in the order they are opened ------------------------------------------------------

  /** Each closing tag names its own opener, and what was opened after that is shut before it. */
  ghost predicate Nested(ps: seq<Piece>, at: nat) {
    && (forall k :: 0 <= k < |ps| && ps[k].Shut? ==> Matches(ps, at, k))
    && (forall j, k :: 0 <= j < k < |ps| ==> InOrder(ps[j], ps[k], at + j))
    && (forall i :: 0 <= i < |ps| && Blocks(ps[i]) ==> IsShut(ps, at, i))
  }

  ghost predicate Matches(ps: seq<Piece>, at: nat, k: nat)
    requires k < |ps| && ps[k].Shut?
  {
    && at <= ps[k].opener < at + k
    && var o := ps[ps[k].opener - at]; Blocks(o) && ps[k].name == OutTag(o.element.tag)
  }

  /** Of two closing tags, the second cannot be the one of an element around which the first stands open. */
  ghost predicate InOrder(p: Piece, q: Piece, at: nat) {
    p.Shut? && q.Shut? && q.opener < at ==> q.opener < p.opener
  }

  ghost predicate IsShut(ps: seq<Piece>, at: nat, i: nat) {
    exists k :: i < k < |ps| && ps[k].Shut? && ps[k].opener == at + i
  }

  ghost predicate Inner(ps: seq<Piece>) {
    forall p <- ps :: !p.Begin? && !p.End?
  }

  lemma MatchesAppends(a: seq<Piece>, b: seq<Piece>, at: nat, k: nat)
    requires k < |a + b| && (a + b)[k].Shut?
    requires k < |a| ==> Matches(a, at, k)
    requires k >= |a| ==> Matches(b, at + |a|, k - |a|)
    ensures Matches(a + b, at, k)
  {}

  lemma OrderAppends(a: seq<Piece>, b: seq<Piece>, at: nat, j: nat, k: nat)
    requires j < k < |a + b|
    requires k < |a| ==> InOrder(a[j], a[k], at + j)
    requires j >= |a| ==> InOrder(b[j - |a|], b[k - |a|], at + |a| + (j - |a|))
    requires k >= |a| && b[k - |a|].Shut? ==> Matches(b, at + |a|, k - |a|)
    ensures InOrder((a + b)[j], (a + b)[k], at + j)
  {
    hide OutTag, Blocks;
  }

  lemma ShutAppends(a: seq<Piece>, b: seq<Piece>, at: nat, i: nat)
    requires i < |a + b|
    requires i < |a| ==> IsShut(a, at, i)
    requires i >= |a| ==> IsShut(b, at + |a|, i - |a|)
    ensures IsShut(a + b, at, i)
  {
    var ps := a + b;
    if i < |a| {
      var k :| i < k < |a| && a[k].Shut? && a[k].opener == at + i;
      assert ps[k] == a[k];
    } else {
      var k :| i - |a| < k < |b| && b[k].Shut? && b[k].opener == at + i;
      assert ps[|a| + k] == b[k];
    }
  }

  lemma NestedAppends(a: seq<Piece>, b: seq<Piece>, at: nat)
    requires Nested(a, at) && Nested(b, at + |a|)
    ensures Nested(a + b, at)
  {
    hide Matches, InOrder, IsShut, Blocks;
    var ps := a + b;
    forall k | 0 <= k < |ps| && ps[k].Shut? ensures Matches(ps, at, k) {
      MatchesAppends(a, b, at, k);
    }
    forall j, k | 0 <= j < k < |ps| ensures InOrder(ps[j], ps[k], at + j) {
      OrderAppends(a, b, at, j, k);
    }
    forall i | 0 <= i < |ps| && Blocks(ps[i]) ensures IsShut(ps, at, i) {
      ShutAppends(a, b, at, i);
    }
  }

  /** An element around nested pieces. */
  function Around(n: ElementNode, ref: Option<nat>, inside: seq<Piece>, at: nat): (r: seq<Piece>)
    ensures |r| == |inside| + 2 && r[0] == Open(n, ref) && r[|inside| + 1] == Shut(OutTag(n.tag), at)
    ensures forall i {:trigger r[i]} :: 0 < i <= |inside| ==> r[i] == inside[i - 1]
  {
    [Open(n, ref)] + (inside + [Shut(OutTag(n.tag), at)])
  }

  lemma MatchesAround(n: ElementNode, ref: Option<nat>, inside: seq<Piece>, at: nat, k: nat)
    requires n.tag !in VOID_TAGS
    requires var ps := Around(n, ref, inside, at); k < |ps| && ps[k].Shut?
    requires 0 < k <= |inside| ==> Matches(inside, at + 1, k - 1)
    ensures Matches(Around(n, ref, inside, at), at, k)
  {
    hide Around, OutTag;
  }

  lemma OrderAround(n: ElementNode, ref: Option<nat>, inside: seq<Piece>, at: nat, j: nat, k: nat)
    requires j < k < |inside| + 2
    requires 0 < j && k <= |inside| ==> InOrder(inside[j - 1], inside[k - 1], at + 1 + (j - 1))
    requires 0 < j <= |inside| && inside[j - 1].Shut? ==> Matches(inside, at + 1, j - 1)
    ensures var ps := Around(n, ref, inside, at); InOrder(ps[j], ps[k], at + j)
  {
    hide Around, OutTag, Blocks;
  }

  lemma ShutAround(n: ElementNode, ref: Option<nat>, inside: seq<Piece>, at: nat, i: nat)
    requires i < |inside| + 1
    requires 0 < i ==> IsShut(inside, at + 1, i - 1)
    ensures IsShut(Around(n, ref, inside, at), at, i)
  {
    hide Around, OutTag;
    var ps := Around(n, ref, inside, at);
    if 0 < i {
      var k :| i - 1 < k < |inside| && inside[k].Shut? && inside[k].opener == at + i;
      assert ps[k + 1] == inside[k];
    } else {
      assert ps[|inside| + 1].Shut?;
    }
  }

  lemma NestedAround(n: ElementNode, ref: Option<nat>, inside: seq<Piece>, at: nat)
    requires Nested(inside, at + 1) && n.tag !in VOID_TAGS
    ensures Nested(Around(n, ref, inside, at), at)
  {
    hide Around, OutTag, Matches, InOrder, IsShut;
    var ps := Around(n, ref, inside, at);
    forall k | 0 <= k < |ps| && ps[k].Shut? ensures Matches(ps, at, k) {
      MatchesAround(n, ref, inside, at, k);
    }
    forall j, k | 0 <= j < k < |ps| ensures InOrder(ps[j], ps[k], at + j) {
      OrderAround(n, ref, inside, at, j, k);
    }
    forall i | 0 <= i < |ps| && Blocks(ps[i]) ensures IsShut(ps, at, i) {
      ShutAround(n, ref, inside, at, i);
    }
  }

  lemma {:induction false} PiecesNested(n: Dom, next: nat, at: nat)
    ensures Nested(Pieces(n, next, at), at) && Inner(Pieces(n, next, at))
    decreases n
  {
    hide OutTag, Nested, RefFor, AfterRef, SanitizeAll;
    NoneNested(at);
    if n.TextNode? {
      OneNested(Words(n.text), at);
    } else if n.Element? && !Skipped(n) {
      if n.tag in VOID_TAGS {
        OneNested(Open(n, RefFor(n, next)), at);
      } else {
        var a := PiecesAll(n.light, AfterRef(n, next), at + 1);
        var b := PiecesAll(n.shadow, SanitizeAll(n.light, AfterRef(n, next)).1, at + 1 + |a|);
        AllNested(n.light, AfterRef(n, next), at + 1);
        AllNested(n.shadow, SanitizeAll(n.light, AfterRef(n, next)).1, at + 1 + |a|);
        NestedAppends(a, b, at + 1);
        NestedAround(n, RefFor(n, next), a + b, at);
        assert a + b + [Shut(OutTag(n.tag), at)] == a + (b + [Shut(OutTag(n.tag), at)]);
      }
    }
  }

  lemma NoneNested(at: nat)
    ensures Nested([], at)
  {}

  lemma OneNested(p: Piece, at: nat)
    requires !p.Shut? && !Blocks(p)
    ensures Nested([p], at)
  {}

  lemma {:induction false} AllNested(ns: seq<Dom>, next: nat, at: nat)
    ensures Nested(PiecesAll(ns, next, at), at) && Inner(PiecesAll(ns, next, at))
    decreases ns
  {
    hide Nested, Pieces, Sanitize;
    if ns == [] {
      NoneNested(at);
    } else {
      var a := Pieces(ns[0], next, at);
      PiecesNested(ns[0], next, at);
      AllNested(ns[1..], Sanitize(ns[0], next).1, at + |a|);
      NestedAppends(a, PiecesAll(ns[1..], Sanitize(ns[0], next).1, at + |a|), at);
    }
  }

  // ---- the run is the walk ------------------------------------------------------------------------------

  /** A run that has come to place `at`, with the next ref to give unless something was cut. */
  ghost predicate Ready(cap: nat, r: Run, next: nat, at: nat) {
    && (r.cut.Some? <==> r.walk.truncated)
    && (r.cut.Some? ==> r.cut.value < at)
    && (r.cut.None? ==> r.walk.nextRef == next && r.walk.size <= cap)
  }

  lemma {:induction false} RunIsWalk(cap: nat, r: Run, n: Dom, next: nat, at: nat)
    requires Ready(cap, r, next, at) && r.cut.None?
    ensures var ps := Pieces(n, next, at); var r' := RunAll(cap, r, ps, at);
      && r'.walk == WalkNode(cap, r.walk, n)
      && Ready(cap, r', Sanitize(n, next).1, at + |ps|)
      && (r'.cut.Some? ==> at <= r'.cut.value)
    decreases n, 1
  {
    hide PieceText, EscapeText, OpenTag, CloseTag, AttrsOf, OutTag;
    if n.TextNode? {
      RunOne(cap, r, Words(n.text), at);
      assert PieceText(Words(n.text)) == EscapeText(n.text) by { TextOf(Words(n.text)); }
    } else if n.Element? && !Skipped(n) {
      ElementRuns(cap, r, n, next, at);
    }
  }

  lemma TextOf(p: Piece)
    ensures p.Words? ==> PieceText(p) == EscapeText(p.text)
    ensures p.Open? ==> PieceText(p) == OpenTag(OutTag(p.element.tag), AttrsOf(p.element, p.ref))
    ensures p.Shut? ==> PieceText(p) == CloseTag(p.name)
  {
    hide EscapeText, OpenTag, CloseTag, AttrsOf, OutTag;
  }

  /** Pushing the opening tag, and giving its ref. */
  lemma OpenRuns(cap: nat, r: Run, n: ElementNode, next: nat, at: nat)
    requires Ready(cap, r, next, at) && r.cut.None?
    ensures var r' := Step(cap, r, Open(n, RefFor(n, next)), at);
      && r'.walk == Push(cap, AssignRef(r.walk, n), OpenTag(OutTag(n.tag), AttrsOf(n, RefFor(n, next))))
      && Ready(cap, r', AfterRef(n, next), at + 1)
      && (r'.cut.Some? ==> at <= r'.cut.value)
  {
    hide PieceText, OpenTag, AttrsOf, OutTag;
    TextOf(Open(n, RefFor(n, next)));
  }

  lemma ShutRuns(cap: nat, r: Run, name: string, opener: nat, next: nat, at: nat)
    requires Ready(cap, r, next, at) && (r.cut.Some? ==> opener <= r.cut.value) && opener < at
    ensures var r' := Step(cap, r, Shut(name, opener), at);
      && r'.walk == Push(cap, r.walk, CloseTag(name))
      && Ready(cap, r', next, at + 1)
      && (r'.cut.Some? ==> opener <= r'.cut.value)
  {
    hide PieceText, CloseTag;
    TextOf(Shut(name, opener));
  }

  /** What an element comes to: its pieces, its walk and the next ref after it. */
  lemma ElementIs(cap: nat, w: Walk, n: ElementNode, next: nat, at: nat)
    requires !Skipped(n) && !w.truncated
    ensures var open, inside := Open(n, RefFor(n, next)), AfterRef(n, next);
      var begun := Push(cap, AssignRef(w, n), OpenTag(OutTag(n.tag), AttrsOf(n, RefFor(n, w.nextRef))));
      if n.tag in VOID_TAGS then Pieces(n, next, at) == [open] && WalkNode(cap, w, n) == begun && Sanitize(n, next).1 == inside
      else
        var k := SanitizeAll(n.light, inside).1;
        var a := PiecesAll(n.light, inside, at + 1);
        var b := PiecesAll(n.shadow, k, at + 1 + |a|);
        && Pieces(n, next, at) == [open] + (a + (b + [Shut(OutTag(n.tag), at)]))
        && WalkNode(cap, w, n) == Push(cap, WalkAll(cap, WalkAll(cap, begun, n.light), n.shadow), CloseTag(OutTag(n.tag)))
        && Sanitize(n, next).1 == SanitizeAll(n.shadow, k).1
  {
    hide OpenTag, CloseTag, AttrsOf, OutTag, Push, AssignRef, WalkAll, SanitizeAll, PiecesAll;
  }

  lemma {:induction false} ElementRuns(cap: nat, r: Run, n: ElementNode, next: nat, at: nat)
    requires Ready(cap, r, next, at) && r.cut.None? && !Skipped(n)
    ensures var ps := Pieces(n, next, at); var r' := RunAll(cap, r, ps, at);
      && r'.walk == WalkNode(cap, r.walk, n)
      && Ready(cap, r', Sanitize(n, next).1, at + |ps|)
      && (r'.cut.Some? ==> at <= r'.cut.value)
    decreases n, 0
  {
    hide PieceText, OpenTag, CloseTag, AttrsOf, OutTag, Step, Push, AssignRef, Ready, RunAll;
    hide Pieces, WalkNode, Sanitize, WalkAll, PiecesAll, SanitizeAll;
    ReadyIs(cap, r, next, at);
    ElementIs(cap, r.walk, n, next, at);
    var open := Open(n, RefFor(n, next));
    var r0 := Step(cap, r, open, at);
    OpenRuns(cap, r, n, next, at);
    RunOne(cap, r, open, at);
    if n.tag !in VOID_TAGS {
      var inside := AfterRef(n, next);
      var k := SanitizeAll(n.light, inside).1;
      var l := SanitizeAll(n.shadow, k).1;
      var shut := Shut(OutTag(n.tag), at);
      var a := PiecesAll(n.light, inside, at + 1);
      var b := PiecesAll(n.shadow, k, at + 1 + |a|);
      var r1 := RunAll(cap, r0, a, at + 1);
      var r2 := RunAll(cap, r1, b, at + 1 + |a|);
      AllRun(cap, r0, n.light, inside, at + 1);
      AllRun(cap, r1, n.shadow, k, at + 1 + |a|);
      ShutRuns(cap, r2, OutTag(n.tag), at, l, at + 1 + |a| + |b|);
      RunFour(cap, r, open, a, b, shut, at);
    }
  }

  lemma RunFour(cap: nat, r: Run, open: Piece, a: seq<Piece>, b: seq<Piece>, shut: Piece, at: nat)
    ensures var r1 := RunAll(cap, Step(cap, r, open, at), a, at + 1);
      var r2 := RunAll(cap, r1, b, at + 1 + |a|);
      RunAll(cap, r, [open] + (a + (b + [shut])), at) == Step(cap, r2, shut, at + 1 + |a| + |b|)
  {
    hide Step, RunAll;
    var r0 := Step(cap, r, open, at);
    var r1 := RunAll(cap, r0, a, at + 1);
    RunOne(cap, r, open, at);
    RunOne(cap, RunAll(cap, r1, b, at + 1 + |a|), shut, at + 1 + |a| + |b|);
    RunAppends(cap, r1, b, [shut], at + 1 + |a|);
    RunAppends(cap, r0, a, b + [shut], at + 1);
    RunAppends(cap, r, [open], a + (b + [shut]), at);
  }

  lemma ReadyIs(cap: nat, r: Run, next: nat, at: nat)
    requires Ready(cap, r, next, at)
    ensures (r.cut.Some? <==> r.walk.truncated) && (r.cut.None? ==> r.walk.nextRef == next && r.walk.size <= cap)
  {}

  /** After a cut nothing that has not been opened is printed. */
  lemma AllSkipped(cap: nat, r: Run, ns: seq<Dom>, next: nat, at: nat)
    requires Ready(cap, r, next, at) && r.cut.Some?
    ensures RunAll(cap, r, PiecesAll(ns, next, at), at) == r && WalkAll(cap, r.walk, ns) == r.walk
  {
    hide PiecesAll, Pieces, WalkAll, RunAll, IsShut, InOrder, OutTag;
    var ps := PiecesAll(ns, next, at);
    AllNested(ns, next, at);
    forall k | 0 <= k < |ps| ensures !Attempted(r.cut, ps[k]) {
      assert ps[k] in ps;
      if ps[k].Shut? { assert Matches(ps, at, k); }
    }
    RunSkips(cap, r, ps, at);
    StaysTruncated(cap, r.walk, ns);
  }

  lemma {:induction false} AllRun(cap: nat, r: Run, ns: seq<Dom>, next: nat, at: nat)
    requires Ready(cap, r, next, at)
    ensures var ps := PiecesAll(ns, next, at); var r' := RunAll(cap, r, ps, at);
      && r'.walk == WalkAll(cap, r.walk, ns)
      && Ready(cap, r', SanitizeAll(ns, next).1, at + |ps|)
      && (r'.cut.Some? ==> if r.cut.Some? then r'.cut == r.cut else at <= r'.cut.value)
    decreases ns, 2
  {
    hide Pieces, Sanitize, WalkNode, Step, Push;
    if r.cut.Some? {
      AllSkipped(cap, r, ns, next, at);
    } else if ns != [] {
      hide RunAll;
      var a := Pieces(ns[0], next, at);
      var k := Sanitize(ns[0], next).1;
      var b := PiecesAll(ns[1..], k, at + |a|);
      RunIsWalk(cap, r, ns[0], next, at);
      AllRun(cap, RunAll(cap, r, a, at), ns[1..], k, at + |a|);
      RunAppends(cap, r, a, b, at);
    }
  }

  /** Running the pieces of the page gives its snapshot, for every cap. */
  lemma RunIsSnapshot(cap: nat, body: seq<Dom>, firstRef: nat)
    ensures RunOf(cap, body, firstRef).walk == SnapshotOf(cap, body, firstRef)
  {
    hide WalkAll, Step, RunAll, PiecesAll, SanitizeAll;
    var r := Start(firstRef);
    var ps := PiecesAll(body, firstRef, 1);
    var r0 := Step(cap, r, Begin, 0);
    var r1 := RunAll(cap, r0, ps, 1);
    BeginRuns(cap, firstRef);
    RunOne(cap, r, Begin, 0);
    AllRun(cap, r0, body, firstRef, 1);
    EndRuns(cap, r1, |ps| + 1);
    RunOne(cap, r1, End, |ps| + 1);
    RunAppends(cap, r0, ps, [End], 1);
    RunAppends(cap, r, [Begin], ps + [End], 0);
  }

  lemma BeginRuns(cap: nat, firstRef: nat)
    ensures var r := Step(cap, Start(firstRef), Begin, 0);
      r.walk == Push(cap, Start(firstRef).walk, BODY_OPEN) && Ready(cap, r, firstRef, 1)
  {}

  lemma EndRuns(cap: nat, r: Run, at: nat)
    ensures Step(cap, r, End, at).walk == Push(cap, r.walk, BODY_CLOSE)
  {}

  // ---- the whole script -----------------------------------------------------------------------------------

  function AfterPiece(p: Piece, next: nat): nat {
    if p.Open? then AfterRef(p.element, next) else next
  }

  function AfterPieces(ps: seq<Piece>, next: nat): nat
    decreases ps
  {
    if ps == [] then next else AfterPieces(ps[1..], AfterPiece(ps[0], next))
  }

  /** Each clickable element carries the next ref. */
  ghost predicate Numbered(ps: seq<Piece>, next: nat)
    decreases ps
  {
    ps == [] || ((ps[0].Open? ==> ps[0].ref == RefFor(ps[0].element, next)) && Numbered(ps[1..], AfterPiece(ps[0], next)))
  }

  lemma {:induction false} NumberedAppends(a: seq<Piece>, b: seq<Piece>, next: nat)
    requires Numbered(a, next) && Numbered(b, AfterPieces(a, next))
    ensures Numbered(a + b, next) && AfterPieces(a + b, next) == AfterPieces(b, AfterPieces(a, next))
    decreases a
  {
    if a == [] {
      assert a + b == b;
    } else {
      assert (a + b)[0] == a[0] && (a + b)[1..] == a[1..] + b;
      NumberedAppends(a[1..], b, AfterPiece(a[0], next));
    }
  }

  lemma NumberedOne(p: Piece, next: nat)
    requires p.Open? ==> p.ref == RefFor(p.element, next)
    ensures Numbered([p], next) && AfterPieces([p], next) == AfterPiece(p, next)
  {
    assert [p][1..] == [];
  }

  lemma {:induction false} PiecesNumbered(n: Dom, next: nat, at: nat)
    ensures Numbered(Pieces(n, next, at), next) && AfterPieces(Pieces(n, next, at), next) == Sanitize(n, next).1
    decreases n
  {
    hide OutTag, AttrsOf, RefFor;
    if n.TextNode? {
      NumberedOne(Words(n.text), next);
    } else if n.Element? && !Skipped(n) {
      hide Numbered, AfterPieces;
      var open, inside := Open(n, RefFor(n, next)), AfterRef(n, next);
      NumberedOne(open, next);
      if n.tag !in VOID_TAGS {
        var k := SanitizeAll(n.light, inside).1;
        var a := PiecesAll(n.light, inside, at + 1);
        var b := PiecesAll(n.shadow, k, at + 1 + |a|);
        var shut := Shut(OutTag(n.tag), at);
        AllNumbered(n.light, inside, at + 1);
        AllNumbered(n.shadow, k, at + 1 + |a|);
        NumberedOne(shut, SanitizeAll(n.shadow, k).1);
        NumberedAppends(b, [shut], k);
        NumberedAppends(a, b + [shut], inside);
        NumberedAppends([open], a + (b + [shut]), next);
      }
    }
  }

  lemma {:induction false} AllNumbered(ns: seq<Dom>, next: nat, at: nat)
    ensures Numbered(PiecesAll(ns, next, at), next) && AfterPieces(PiecesAll(ns, next, at), next) == SanitizeAll(ns, next).1
    decreases ns
  {
    hide Pieces, Sanitize;
    if ns != [] {
      var a := Pieces(ns[0], next, at);
      var k := Sanitize(ns[0], next).1;
      PiecesNumbered(ns[0], next, at);
      AllNumbered(ns[1..], k, at + |a|);
      NumberedAppends(a, PiecesAll(ns[1..], k, at + |a|), next);
    }
  }

  ghost predicate Whole(ps: seq<Piece>, firstRef: nat) {
    && Nested(ps, 0)
    && Numbered(ps, firstRef)
    && forall i :: 0 <= i < |ps| - 1 ==> !ps[i].End?
  }

  lemma ScriptIsWhole(body: seq<Dom>, firstRef: nat)
    ensures Whole(Script(body, firstRef), firstRef)
  {
    hide PiecesAll, Nested, Numbered, AfterPieces;
    var ps := PiecesAll(body, firstRef, 1);
    OneNested(Begin, 0);
    AllNested(body, firstRef, 1);
    OneNested(End, 1 + |ps|);
    NestedAppends(ps, [End], 1);
    NestedAppends([Begin], ps + [End], 0);
    NumberedOne(Begin, firstRef);
    AllNumbered(body, firstRef, 1);
    NumberedOne(End, AfterPieces(ps, firstRef));
    NumberedAppends(ps, [End], firstRef);
    NumberedAppends([Begin], ps + [End], firstRef);
    var script := Script(body, firstRef);
    forall i | 0 <= i < |script| - 1 ensures !script[i].End? {
      if 0 < i { assert script[i] == ps[i - 1] && ps[i - 1] in ps; }
    }
  }

  // ---- what a run has done at a place ---------------------------------------------------------------------------

  /** Before the cut every piece is written; the cut piece is not, and after it only closing tags
      whose opener stands no later. */
  ghost predicate Prints(ps: seq<Piece>, r: Run, at: nat) {
    && (forall i <- r.printed :: i < at)
    && (r.cut.Some? ==> r.cut.value < at && r.cut.value !in r.printed)
    && (forall i: nat :: i < at && (r.cut.Some? ==> i < r.cut.value) ==> i in r.printed)
    && (forall i <- r.printed :: i < |ps| && (r.cut.Some? && i > r.cut.value ==> Attempted(r.cut, ps[i])))
  }

  lemma StepPrints(cap: nat, ps: seq<Piece>, r: Run, at: nat)
    requires at < |ps| && Prints(ps, r, at)
    ensures Prints(ps, Step(cap, r, ps[at], at), at + 1)
  {
    hide PieceText;
  }

  /** The parts written are the texts of those pieces. */
  function Texts(ps: seq<Piece>, places: seq<nat>): seq<string>
    requires forall i <- places :: i < |ps|
  {
    seq(|places|, k requires 0 <= k < |places| => assert places[k] in places; PieceText(ps[places[k]]))
  }

  ghost predicate Parts(ps: seq<Piece>, r: Run) {
    (forall i <- r.printed :: i < |ps|) && r.walk.parts == Texts(ps, r.printed)
  }

  lemma StepParts(cap: nat, ps: seq<Piece>, r: Run, at: nat)
    requires at < |ps| && Parts(ps, r)
    ensures Parts(ps, Step(cap, r, ps[at], at))
  {
    hide PieceText;
    assert Texts(ps, r.printed + [at]) == Texts(ps, r.printed) + [PieceText(ps[at])];
  }

  /** The cut is the first misfit. */
  ghost predicate Sized(cap: nat, ps: seq<Piece>, r: Run, at: nat)
    requires at <= |ps|
  {
    && (r.cut.Some? <==> r.walk.truncated)
    && (r.cut.None? ==> r.walk.size == Length(ps[..at]) <= cap)
    && (r.cut.Some? ==> var c := r.cut.value; c < at && Length(ps[..c]) <= cap < Length(ps[..c + 1]))
  }

  lemma StepSized(cap: nat, ps: seq<Piece>, r: Run, at: nat)
    requires at < |ps| && Sized(cap, ps, r, at)
    ensures Sized(cap, ps, Step(cap, r, ps[at], at), at + 1)
  {
    hide PieceText, Length;
    LengthUpTo(ps, at);
  }

  ghost predicate Given(ps: seq<Piece>, end: nat, ref: nat) {
    exists i :: 0 <= i < end && i < |ps| && Carries(ps[i], ref)
  }

  /** The table holds the refs of the opening tags up to the cut, the cut one included, and no tag
      in front of the cut has the cut one's. */
  ghost predicate Tabled(ps: seq<Piece>, r: Run, next: nat, at: nat) {
    && (r.cut.None? ==> r.walk.nextRef == next && forall ref <- r.walk.elements :: ref < next)
    && (forall ref :: ref in r.walk.elements <==> Given(ps, if r.cut.Some? then r.cut.value + 1 else at, ref))
    && (r.cut.Some? ==> r.cut.value < at)
    && (r.cut.Some? && r.cut.value < |ps| ==>
          forall ref :: Carries(ps[r.cut.value], ref) ==> !Given(ps, r.cut.value, ref))
  }

  lemma GivenNext(ps: seq<Piece>, at: nat, ref: nat)
    requires at < |ps|
    ensures Given(ps, at + 1, ref) <==> Given(ps, at, ref) || Carries(ps[at], ref)
  {
    if Carries(ps[at], ref) { assert Given(ps, at + 1, ref); }
  }

  lemma StepTabled(cap: nat, ps: seq<Piece>, r: Run, next: nat, at: nat)
    requires at < |ps| && Tabled(ps, r, next, at)
    requires ps[at].Open? ==> ps[at].ref == RefFor(ps[at].element, next)
    ensures Tabled(ps, Step(cap, r, ps[at], at), AfterPiece(ps[at], next), at + 1)
  {
    hide PieceText, Given;
    forall ref ensures Given(ps, at + 1, ref) <==> Given(ps, at, ref) || Carries(ps[at], ref) {
      GivenNext(ps, at, ref);
    }
    if r.cut.None? {
      assert forall ref :: Given(ps, at, ref) <==> ref in r.walk.elements;
      var r' := Step(cap, r, ps[at], at);
      forall ref: nat ensures ref in r'.walk.elements <==> ref in r.walk.elements || Carries(ps[at], ref) {
        RefIsGiven(cap, r, ps[at], next, at, ref);
      }
      assert forall ref :: Carries(ps[at], ref) ==> ref == next && !Given(ps, at, ref);
    }
  }

  lemma RefIsGiven(cap: nat, r: Run, p: Piece, next: nat, at: nat, ref: nat)
    requires r.cut.None? && r.walk.nextRef == next && (p.Open? ==> p.ref == RefFor(p.element, next))
    ensures ref in Step(cap, r, p, at).walk.elements <==> ref in r.walk.elements || Carries(p, ref)
  {
    hide PieceText;
  }

  /** Where the run has given refs: up to the cut, the cut piece included. */
  function GivenUpTo(r: Run, at: nat): nat {
    if r.cut.Some? then r.cut.value + 1 else at
  }

  /** The ref that a tag carries names its own element. */
  ghost predicate NamesOwn(elements: map<nat, nat>, p: Piece) {
    p.Open? && p.ref.Some? ==> Points(elements, p.ref.value, p.element.identity)
  }

  function Entry(p: Piece): seq<RefInfo> {
    if p.Open? && p.ref.Some? && p.element.verdict.Some? then [RefInfo(p.ref.value, p.element.verdict.value)] else []
  }

  /** What the list of refs says of the opening tags among `ps`. */
  function Listed(ps: seq<Piece>): seq<RefInfo> {
    if ps == [] then [] else Listed(ps[..|ps| - 1]) + Entry(ps[|ps| - 1])
  }

  ghost predicate Owned(ps: seq<Piece>, r: Run, at: nat) {
    && GivenUpTo(r, at) <= |ps|
    && (forall p <- ps[..GivenUpTo(r, at)] :: NamesOwn(r.walk.elements, p))
    && r.walk.refs == Listed(ps[..GivenUpTo(r, at)])
  }

  lemma StepOwned(cap: nat, ps: seq<Piece>, r: Run, next: nat, at: nat)
    requires at < |ps| && Tabled(ps, r, next, at) && Owned(ps, r, at)
    requires ps[at].Open? ==> ps[at].ref == RefFor(ps[at].element, next)
    ensures Owned(ps, Step(cap, r, ps[at], at), at + 1)
  {
    hide PieceText, Given;
    if r.cut.None? {
      var r' := Step(cap, r, ps[at], at);
      assert ps[..at + 1] == ps[..at] + [ps[at]] && ps[..at + 1][..at] == ps[..at];
      forall p | p in ps[..at + 1] ensures NamesOwn(r'.walk.elements, p) {
        OwnStays(cap, r, ps[at], next, at, p, p in ps[..at]);
      }
    }
  }

  lemma OwnStays(cap: nat, r: Run, q: Piece, next: nat, at: nat, p: Piece, before: bool)
    requires r.cut.None? && r.walk.nextRef == next && forall ref <- r.walk.elements :: ref < next
    requires q.Open? ==> q.ref == RefFor(q.element, next)
    requires if before then NamesOwn(r.walk.elements, p) else p == q
    ensures NamesOwn(Step(cap, r, q, at).walk.elements, p)
  {
    hide PieceText;
  }

  /** After a cut at an opening tag: until its own closing tag nothing is written, and that tag is
      written if it fits where the opening tag did not. */
  ghost predicate Torn(cap: nat, ps: seq<Piece>, r: Run, at: nat)
    requires at <= |ps|
  {
    r.cut.Some? && r.cut.value < at && Blocks(ps[r.cut.value]) ==>
      var c := r.cut.value;
      && ((forall k :: c < k < at ==> !Attempted(r.cut, ps[k])) ==> r.walk.size == Length(ps[..c]))
      && (forall k: nat :: c < k < at && ps[k].Shut? && ps[k].opener == c ==>
            (k in r.printed <==> Length(ps[..c]) + |PieceText(ps[k])| <= cap))
  }

  lemma StepTorn(cap: nat, ps: seq<Piece>, r: Run, at: nat)
    requires at < |ps| && Prints(ps, r, at) && Sized(cap, ps, r, at) && Torn(cap, ps, r, at)
    requires Nested(ps, 0) && forall i :: 0 <= i < |ps| - 1 ==> !ps[i].End?
    ensures Torn(cap, ps, Step(cap, r, ps[at], at), at + 1)
  {
    hide PieceText, Length, Matches, IsShut;
    var r' := Step(cap, r, ps[at], at);
    if r.cut.Some? && Blocks(ps[r.cut.value]) && ps[at].Shut? && ps[at].opener == r.cut.value {
      var c := r.cut.value;
      forall k | c < k < at ensures !Attempted(r.cut, ps[k]) {
        assert InOrder(ps[k], ps[at], k);
      }
    }
  }

  /** The closing tags, among `ps`, of what was opened before `c`: their length. */
  function Owing(ps: seq<Piece>, c: nat): nat {
    if ps == [] then 0
    else (if ps[0].Shut? && ps[0].opener < c then |PieceText(ps[0])| else 0) + Owing(ps[1..], c)
  }

  lemma {:induction false} OwingNext(ps: seq<Piece>, c: nat, k: nat, d: nat)
    requires k <= d < |ps|
    ensures Owing(ps[k..d + 1], c) == Owing(ps[k..d], c) + if ps[d].Shut? && ps[d].opener < c then |PieceText(ps[d])| else 0
    decreases d - k
  {
    hide PieceText;
    if k == d {
      assert ps[k..d + 1][1..] == [];
    } else {
      OwingNext(ps, c, k + 1, d);
      assert ps[k..d + 1][1..] == ps[k + 1..d + 1] && ps[k..d][1..] == ps[k + 1..d];
    }
  }

  lemma {:induction false} NothingOwing(ps: seq<Piece>, c: nat)
    requires forall p <- ps :: p.Shut? ==> p.opener >= c
    ensures Owing(ps, c) == 0
  {
    if ps != [] { NothingOwing(ps[1..], c); }
  }

  /** The cut element's own closing tag, if it is shut in front of `end` and the tag fits. */
  ghost function Own(cap: nat, ps: seq<Piece>, c: nat, end: nat): nat
    requires c < |ps|
  {
    if Blocks(ps[c]) && (exists k: nat :: c < k < end && k < |ps| && ps[k].Shut? && ps[k].opener == c)
       && Length(ps[..c]) + |CloseTag(OutTag(ps[c].element.tag))| <= cap
    then |CloseTag(OutTag(ps[c].element.tag))|
    else 0
  }

  /** What stood open at the cut is shut in front of `at`, as far as it ends there. */
  ghost predicate ShutAgain(ps: seq<Piece>, r: Run, c: nat, at: nat) {
    forall k: nat :: c <= k < at && k < |ps| && ps[k].Shut? && ps[k].opener < c ==> k in r.printed
  }

  /** After a cut, everything that stands open is shut exactly as long as there is room for it all. */
  ghost predicate Settles(cap: nat, ps: seq<Piece>, r: Run, at: nat)
    requires at <= |ps|
  {
    r.cut.Some? && r.cut.value < at ==>
      var c := r.cut.value;
      var end := Length(ps[..c]) + Own(cap, ps, c, at) + Owing(ps[c..at], c);
      && (ShutAgain(ps, r, c, at) <==> end <= cap)
      && (ShutAgain(ps, r, c, at) && at < |ps| ==> r.walk.size == end)
  }

  /** The cut itself. */
  lemma CutSettles(cap: nat, ps: seq<Piece>, r: Run, at: nat)
    requires at < |ps| && Prints(ps, r, at) && Sized(cap, ps, r, at) && Nested(ps, 0) && r.cut.None?
    ensures Settles(cap, ps, Step(cap, r, ps[at], at), at + 1)
  {
    hide PieceText, Length, InOrder, IsShut, Owing;
    LengthUpTo(ps, at);
    OwingNext(ps, at, at, at);
    NothingOwing(ps[at..at], at);
    assert ps[at].Shut? ==> Matches(ps, 0, at);
  }

  /** The closing tag of the cut element. */
  lemma OwnSettles(cap: nat, ps: seq<Piece>, r: Run, at: nat)
    requires at < |ps| && Prints(ps, r, at) && Settles(cap, ps, r, at) && Nested(ps, 0)
    requires r.cut.Some? && ps[at].Shut? && ps[at].opener == r.cut.value
    ensures Settles(cap, ps, Step(cap, r, ps[at], at), at + 1)
  {
    hide PieceText, Length, IsShut, Owing;
    var c := r.cut.value;
    assert Matches(ps, 0, at);
    TextOf(ps[at]);
    forall k | c < k < at && ps[k].Shut? ensures ps[k].opener > c {
      assert InOrder(ps[k], ps[at], k);
    }
    NothingOwing(ps[c..at], c);
    OwingNext(ps, c, c, at);
  }

  /** Any other piece after the cut. */
  lemma RestSettles(cap: nat, ps: seq<Piece>, r: Run, at: nat)
    requires at < |ps| && Prints(ps, r, at) && Settles(cap, ps, r, at)
    requires r.cut.Some? && !(ps[at].Shut? && ps[at].opener == r.cut.value)
    requires ps[at].End? ==> at == |ps| - 1
    ensures Settles(cap, ps, Step(cap, r, ps[at], at), at + 1)
  {
    hide PieceText, Length, Owing;
    var c := r.cut.value;
    OwingNext(ps, c, c, at);
    OwnIsSame(cap, ps, c, at);
  }

  lemma OwnIsSame(cap: nat, ps: seq<Piece>, c: nat, at: nat)
    requires c < at < |ps| && !(ps[at].Shut? && ps[at].opener == c)
    ensures Own(cap, ps, c, at + 1) == Own(cap, ps, c, at)
  {
    hide Length, CloseTag, OutTag, Blocks;
  }

  ghost predicate Tracks(cap: nat, ps: seq<Piece>, r: Run, next: nat, at: nat) {
    && at <= |ps|
    && Prints(ps, r, at)
    && Parts(ps, r)
    && Sized(cap, ps, r, at)
    && Tabled(ps, r, next, at)
    && Owned(ps, r, at)
    && Torn(cap, ps, r, at)
    && Settles(cap, ps, r, at)
  }

  lemma StepSettles(cap: nat, ps: seq<Piece>, r: Run, at: nat)
    requires at < |ps| && Prints(ps, r, at) && Sized(cap, ps, r, at) && Settles(cap, ps, r, at) && Nested(ps, 0)
    requires forall i :: 0 <= i < |ps| - 1 ==> !ps[i].End?
    ensures Settles(cap, ps, Step(cap, r, ps[at], at), at + 1)
  {
    hide Prints, Sized, Settles, Nested, Step;
    if r.cut.None? {
      CutSettles(cap, ps, r, at);
    } else if ps[at].Shut? && ps[at].opener == r.cut.value {
      OwnSettles(cap, ps, r, at);
    } else {
      RestSettles(cap, ps, r, at);
    }
  }

  lemma {:induction false} RunTracks(cap: nat, ps: seq<Piece>, r: Run, next: nat, at: nat)
    requires Tracks(cap, ps, r, next, at) && Numbered(ps[at..], next)
    requires Nested(ps, 0) && forall i :: 0 <= i < |ps| - 1 ==> !ps[i].End?
    ensures exists last :: Tracks(cap, ps, RunAll(cap, r, ps[at..], at), last, |ps|)
    decreases |ps| - at
  {
    hide Prints, Parts, Sized, Tabled, Owned, Torn, Settles, Nested, Step;
    if at == |ps| {
      assert Tracks(cap, ps, RunAll(cap, r, ps[at..], at), next, |ps|);
    } else {
      StepPrints(cap, ps, r, at);
      StepParts(cap, ps, r, at);
      StepSized(cap, ps, r, at);
      StepTabled(cap, ps, r, next, at);
      StepOwned(cap, ps, r, next, at);
      StepTorn(cap, ps, r, at);
      StepSettles(cap, ps, r, at);
      assert ps[at..][0] == ps[at] && ps[at..][1..] == ps[at + 1..];
      var r' := Step(cap, r, ps[at], at);
      assert RunAll(cap, r, ps[at..], at) == RunAll(cap, r', ps[at + 1..], at + 1);
      RunTracks(cap, ps, r', AfterPiece(ps[at], next), at + 1);
    }
  }

  lemma StartTracks(cap: nat, ps: seq<Piece>, firstRef: nat)
    ensures Tracks(cap, ps, Start(firstRef), firstRef, 0)
  {
    assert ps[..0] == [];
  }

  lemma CutIsMisfit(cap: nat, ps: seq<Piece>, r: Run)
    requires Sized(cap, ps, r, |ps|)
    ensures r.cut == if Misfit(cap, ps) < |ps| then Some(Misfit(cap, ps)) else None
  {
    hide Length, Misfit;
    var c := Misfit(cap, ps);
    MisfitIsFirst(cap, ps);
    assert ps[..|ps|] == ps;
    if r.cut.Some? {
      var d := r.cut.value;
      if c < d { LengthGrows(ps, c + 1, d); }
      if d < c { LengthGrows(ps, d + 1, c); }
    } else if c < |ps| {
      LengthGrows(ps, c + 1, |ps|);
    }
  }

  lemma RunOfTracks(cap: nat, body: seq<Dom>, firstRef: nat)
    ensures var ps, r := Script(body, firstRef), RunOf(cap, body, firstRef);
      && Nested(ps, 0)
      && (exists last :: Tracks(cap, ps, r, last, |ps|))
      && r.cut == if Misfit(cap, ps) < |ps| then Some(Misfit(cap, ps)) else None
  {
    hide Prints, Parts, Sized, Tabled, Owned, Torn, Settles, Nested, Numbered, RunAll, Script, Misfit;
    var ps, r := Script(body, firstRef), RunOf(cap, body, firstRef);
    ScriptIsWhole(body, firstRef);
    StartTracks(cap, ps, firstRef);
    assert ps[0..] == ps;
    RunTracks(cap, ps, Start(firstRef), firstRef, 0);
    CutIsMisfit(cap, ps, r);
  }

  // ---- what a snapshot holds, for every page and cap -----------------------------------------------------------------

  /** The places of the pieces written. */
  function Printed(cap: nat, body: seq<Dom>, firstRef: nat): seq<nat> {
    RunOf(cap, body, firstRef).printed
  }

  /** The output is the texts of the pieces in front of the first misfit, and of closing tags
      after it that were opened no later. */
  lemma PrintedExactly(cap: nat, body: seq<Dom>, firstRef: nat)
    ensures var w, ps := SnapshotOf(cap, body, firstRef), Script(body, firstRef);
      var printed, c := Printed(cap, body, firstRef), Misfit(cap, ps);
      && (w.truncated <==> c < |ps|)
      && (forall i <- printed :: i < |ps|) && w.parts == Texts(ps, printed)
      && (forall i: nat :: i < c ==> i in printed)
      && (forall i <- printed :: i >= c ==> i > c && (ps[i].End? || (ps[i].Shut? && ps[i].opener <= c)))
  {
    hide Sized, Tabled, Owned, Torn, Settles, Nested, RunOf, Script, Misfit, SnapshotOf, Texts;
    RunIsSnapshot(cap, body, firstRef);
    RunOfTracks(cap, body, firstRef);
    var ps, r := Script(body, firstRef), RunOf(cap, body, firstRef);
    assert r.cut.Some? <==> r.walk.truncated by {
      var last :| Tracks(cap, ps, r, last, |ps|);
      SizedIs(cap, ps, r);
    }
  }

  lemma SizedIs(cap: nat, ps: seq<Piece>, r: Run)
    requires Sized(cap, ps, r, |ps|)
    ensures r.cut.Some? <==> r.walk.truncated
  {}

  /** The ref stands on an opening tag that was written. */
  ghost predicate Shown(ps: seq<Piece>, printed: seq<nat>, ref: nat) {
    exists i <- printed :: i < |ps| && Carries(ps[i], ref)
  }

  /** Every ref shown is in the table; a ref of the table is not shown exactly if the first misfit
      is the opening tag that carries it. */
  lemma TableExactly(cap: nat, body: seq<Dom>, firstRef: nat, ref: nat)
    ensures var w, ps := SnapshotOf(cap, body, firstRef), Script(body, firstRef);
      var printed, c := Printed(cap, body, firstRef), Misfit(cap, ps);
      && (Shown(ps, printed, ref) ==> ref in w.elements)
      && (ref in w.elements && !Shown(ps, printed, ref) <==> c < |ps| && Carries(ps[c], ref))
  {
    hide Sized, Owned, Torn, Settles, Nested, Parts, RunOf, Script, Misfit, SnapshotOf;
    RunIsSnapshot(cap, body, firstRef);
    RunOfTracks(cap, body, firstRef);
    var ps, r := Script(body, firstRef), RunOf(cap, body, firstRef);
    var last :| Tracks(cap, ps, r, last, |ps|);
    var c := Misfit(cap, ps);
    ShownIsGiven(ps, r, ref);
    if c < |ps| { GivenNext(ps, c, ref); }
  }

  /** Cut or not, a ref of the table names the very element whose opening tag carries it, and the
      list has the refs given, in document order, each with what the click policy said of its
      element. */
  lemma TableNamesOwn(cap: nat, body: seq<Dom>, firstRef: nat)
    ensures var w, ps := SnapshotOf(cap, body, firstRef), Script(body, firstRef);
      var c := Misfit(cap, ps);
      var given := ps[..if c < |ps| then c + 1 else c];
      && (forall p <- given :: NamesOwn(w.elements, p))
      && (forall ref <- w.elements :: exists p <- given :: Carries(p, ref))
      && w.refs == Listed(given)
  {
    hide Prints, Sized, Torn, Settles, Nested, Parts, RunOf, Script, Misfit, SnapshotOf, Listed;
    RunIsSnapshot(cap, body, firstRef);
    RunOfTracks(cap, body, firstRef);
    var ps, r := Script(body, firstRef), RunOf(cap, body, firstRef);
    var last :| Tracks(cap, ps, r, last, |ps|);
    var given := ps[..GivenUpTo(r, |ps|)];
    forall ref | ref in r.walk.elements ensures exists p <- given :: Carries(p, ref) {
      var i: nat :| i < GivenUpTo(r, |ps|) && i < |ps| && Carries(ps[i], ref);
      assert ps[i] in given;
    }
  }

  lemma ShownIsGiven(ps: seq<Piece>, r: Run, ref: nat)
    requires Prints(ps, r, |ps|)
    ensures Shown(ps, r.printed, ref) <==> Given(ps, if r.cut.Some? then r.cut.value else |ps|, ref)
  {
    var end := if r.cut.Some? then r.cut.value else |ps|;
    if Given(ps, end, ref) {
      var i: nat :| i < end && i < |ps| && Carries(ps[i], ref);
      assert i in r.printed;
    }
  }

  /** A closing tag was written whose opening tag was not. */
  ghost predicate Unmatched(ps: seq<Piece>, printed: seq<nat>, k: nat) {
    k in printed && k < |ps| && ps[k].Shut? && ps[k].opener !in printed
  }

  /** There is such a tag exactly if the first misfit is an opening tag with a closing one, and the
      closing one fits in its place; and then it is that one. */
  lemma TagsExactly(cap: nat, body: seq<Dom>, firstRef: nat)
    ensures var ps := Script(body, firstRef);
      var printed, c := Printed(cap, body, firstRef), Misfit(cap, ps);
      && ((exists k: nat :: Unmatched(ps, printed, k))
          <==> ShutFits(cap, ps, c))
      && (forall k: nat :: Unmatched(ps, printed, k) ==> ps[k].opener == c)
  {
    hide Prints, Sized, Tabled, Owned, Settles, Torn, Nested, Parts, RunOf, Script, Misfit, ShutFits;
    RunOfTracks(cap, body, firstRef);
    var ps, r := Script(body, firstRef), RunOf(cap, body, firstRef);
    var last :| Tracks(cap, ps, r, last, |ps|);
    var printed, c := Printed(cap, body, firstRef), Misfit(cap, ps);
    forall k: nat | Unmatched(ps, printed, k) ensures ps[k].opener == c && ShutFits(cap, ps, c) {
      UnmatchedIsCut(cap, ps, r, c, k);
    }
    if ShutFits(cap, ps, c) {
      var k := UnmatchedThere(cap, ps, r, c);
      assert Unmatched(ps, printed, k);
    }
  }

  lemma OwnShut(ps: seq<Piece>, k: nat)
    requires Nested(ps, 0) && k < |ps| && ps[k].Shut?
    ensures ps[k].opener < k && Blocks(ps[ps[k].opener])
    ensures PieceText(ps[k]) == CloseTag(OutTag(ps[ps[k].opener].element.tag))
  {
    hide CloseTag, OutTag, IsShut, InOrder;
    assert Matches(ps, 0, k);
    TextOf(ps[k]);
  }

  /** The cut element's closing tag fits where its opening tag did not. */
  predicate ShutFits(cap: nat, ps: seq<Piece>, c: nat) {
    c < |ps| && Blocks(ps[c]) && Length(ps[..c]) + |CloseTag(OutTag(ps[c].element.tag))| <= cap
  }

  lemma UnmatchedIsCut(cap: nat, ps: seq<Piece>, r: Run, c: nat, k: nat)
    requires Prints(ps, r, |ps|) && Torn(cap, ps, r, |ps|) && Nested(ps, 0)
    requires c <= |ps| && r.cut == (if c < |ps| then Some(c) else None) && Unmatched(ps, r.printed, k)
    ensures ps[k].opener == c && ShutFits(cap, ps, c)
  {
    hide Length, CloseTag, OutTag, PieceText, Nested;
    OwnShut(ps, k);
  }

  lemma UnmatchedThere(cap: nat, ps: seq<Piece>, r: Run, c: nat) returns (k: nat)
    requires Prints(ps, r, |ps|) && Torn(cap, ps, r, |ps|) && Nested(ps, 0)
    requires c <= |ps| && r.cut == (if c < |ps| then Some(c) else None) && ShutFits(cap, ps, c)
    ensures Unmatched(ps, r.printed, k)
  {
    hide Length, CloseTag, OutTag, PieceText, Matches, InOrder;
    assert IsShut(ps, 0, c);
    k :| c < k < |ps| && ps[k].Shut? && ps[k].opener == c;
    OwnShut(ps, k);
  }

  /** An opening tag was written, its closing tag was not. */
  ghost predicate Unshut(ps: seq<Piece>, printed: seq<nat>, i: nat) {
    i in printed && i < |ps| && Blocks(ps[i]) && forall k <- printed :: k < |ps| && ps[k].Shut? ==> ps[k].opener != i
  }

  /** There is such a tag exactly if the closing tags of all that stands open at the first misfit,
      and of the misfit itself if that fits on its own, do not fit together. */
  lemma OpenExactly(cap: nat, body: seq<Dom>, firstRef: nat)
    ensures var ps := Script(body, firstRef);
      var printed, c := Printed(cap, body, firstRef), Misfit(cap, ps);
      (exists i: nat :: Unshut(ps, printed, i))
      <==> c < |ps| && Length(ps[..c]) + Own(cap, ps, c, |ps|) + Owing(ps[c..], c) > cap
  {
    hide Sized, Tabled, Owned, Torn, Nested, Parts, RunOf, Script, Misfit, Length, Own, Owing;
    RunOfTracks(cap, body, firstRef);
    var ps, r := Script(body, firstRef), RunOf(cap, body, firstRef);
    var last :| Tracks(cap, ps, r, last, |ps|);
    var printed, c := Printed(cap, body, firstRef), Misfit(cap, ps);
    assert ps[c..|ps|] == ps[c..];
    UnshutExactly(ps, r, c);
  }

  lemma ShutOnce(ps: seq<Piece>, j: nat, k: nat)
    requires Nested(ps, 0) && j < k < |ps| && ps[j].Shut? && ps[k].Shut?
    ensures ps[j].opener != ps[k].opener
  {
    hide IsShut, OutTag;
    assert Matches(ps, 0, j) && InOrder(ps[j], ps[k], j);
  }

  lemma StaysOpen(ps: seq<Piece>, printed: seq<nat>, k: nat)
    requires Nested(ps, 0) && k < |ps| && ps[k].Shut? && k !in printed && ps[k].opener in printed
    ensures Unshut(ps, printed, ps[k].opener)
  {
    hide Nested, IsShut, OutTag;
    assert Matches(ps, 0, k) by { MatchesAt(ps, k); }
    forall j <- printed | j < |ps| && ps[j].Shut? ensures ps[j].opener != ps[k].opener {
      if j < k { ShutOnce(ps, j, k); }
      if k < j { ShutOnce(ps, k, j); }
    }
  }

  lemma MatchesAt(ps: seq<Piece>, k: nat)
    requires Nested(ps, 0) && k < |ps| && ps[k].Shut?
    ensures Matches(ps, 0, k)
  {}

  lemma UnshutExactly(ps: seq<Piece>, r: Run, c: nat)
    requires Prints(ps, r, |ps|) && Nested(ps, 0) && c <= |ps| && r.cut == if c < |ps| then Some(c) else None
    ensures (exists i: nat :: Unshut(ps, r.printed, i)) <==> !ShutAgain(ps, r, c, |ps|)
  {
    hide Matches, InOrder, OutTag;
    forall i: nat | Unshut(ps, r.printed, i) ensures !ShutAgain(ps, r, c, |ps|) {
      assert IsShut(ps, 0, i);
      var k: nat :| i < k < |ps| && ps[k].Shut? && ps[k].opener == i;
      assert k !in r.printed;
    }
    if !ShutAgain(ps, r, c, |ps|) {
      var k: nat :| c <= k < |ps| && ps[k].Shut? && ps[k].opener < c && k !in r.printed;
      StaysOpen(ps, r.printed, k);
    }
  }

  // ---- reading a snapshot back --------------------------------------------------------------------------------------

  function Tokens(p: Piece): seq<Token> {
    match p
    case Begin => [TOpen("html", []), TOpen("body", [])]
    case Words(text) => [TText(text)]
    case Open(element, ref) => [TOpen(OutTag(element.tag), AttrsOf(element, ref))]
    case Shut(name, _) => [TClose(name)]
    case End => [TClose("body"), TClose("html")]
  }

  function TokensAt(ps: seq<Piece>, places: seq<nat>): seq<Token>
    requires forall i <- places :: i < |ps|
  {
    if places == [] then []
    else
      assert places[0] in places && forall i <- places[1..] :: i in places;
      Tokens(ps[places[0]]) + TokensAt(ps, places[1..])
  }

  lemma WrittenOne(t: Token)
    ensures Written([t]) == TokenText(t)
  {
    assert [t][1..] == [] && TokenText(t) + "" == TokenText(t);
  }

  lemma WrittenTwo(t: Token, u: Token)
    ensures Written([t, u]) == TokenText(t) + TokenText(u)
  {
    WrittenOne(t);
    WrittenOne(u);
    WrittenAppends([t], [u]);
    assert [t] + [u] == [t, u];
  }

  lemma FrameWrites()
    ensures Written(Tokens(Begin)) == BODY_OPEN && Written(Tokens(End)) == BODY_CLOSE
  {
    hide Written;
    WrittenTwo(TOpen("html", []), TOpen("body", []));
    WrittenTwo(TClose("body"), TClose("html"));
    PlainOpening("html");
    PlainOpening("body");
    assert "<" + "html" + ">" + ("<" + "body" + ">") == BODY_OPEN;
    assert CloseTag("body") + CloseTag("html") == BODY_CLOSE;
  }

  lemma TokensValid(p: Piece)
    requires p.Shut? ==> ValidName(p.name)
    ensures AllValid(Tokens(p))
  {
    hide AttrsOf, OutTag;
    if p.Open? {
      OutTagIsVoid(p.element.tag);
      AttrsValid(p.element, p.ref);
    }
  }

  lemma TokensWrite(p: Piece)
    requires p.Shut? ==> ValidName(p.name)
    ensures Written(Tokens(p)) == PieceText(p) && AllValid(Tokens(p))
  {
    hide EscapeText, AttrsOf, OutTag, OpenTag, CloseTag, Written, AllValid, ValidName;
    TokensValid(p);
    match p
    case Begin => FrameWrites();
    case Words(text) => WrittenOne(TText(text));
    case Open(element, ref) => WrittenOne(TOpen(OutTag(element.tag), AttrsOf(element, ref)));
    case Shut(name, _) => WrittenOne(TClose(name));
    case End => FrameWrites();
  }

  lemma {:induction false} TokensJoin(ps: seq<Piece>, places: seq<nat>)
    requires forall i <- places :: i < |ps|
    requires forall p <- ps :: p.Shut? ==> ValidName(p.name)
    ensures Written(TokensAt(ps, places)) == Joined(Texts(ps, places)) && AllValid(TokensAt(ps, places))
  {
    hide Tokens, PieceText, Written, ValidToken, ValidName;
    if places == [] {
      assert Written([]) == "" by { NothingReads(); }
    } else {
      assert places[0] in places && forall i <- places[1..] :: i in places;
      TokensWrite(ps[places[0]]);
      TokensJoin(ps, places[1..]);
      WrittenAppends(Tokens(ps[places[0]]), TokensAt(ps, places[1..]));
      assert Texts(ps, places)[1..] == Texts(ps, places[1..]);
    }
  }

  lemma ShutNames(ps: seq<Piece>)
    requires Nested(ps, 0)
    ensures forall p <- ps :: p.Shut? ==> ValidName(p.name)
  {
    hide OutTag, ValidName;
    forall k | 0 <= k < |ps| && ps[k].Shut? ensures ValidName(ps[k].name) {
      assert Matches(ps, 0, k);
      OutTagIsVoid(ps[ps[k].opener].element.tag);
    }
  }

  /** Parsing the snapshot gives back the sanitized page exactly if the whole page fits the cap. */
  lemma ParsingUndoesExactly(cap: nat, body: seq<Dom>, firstRef: nat)
    ensures ParseAll(Joined(SnapshotOf(cap, body, firstRef).parts)) == Some((Wrapped(Normalize(Page(body, firstRef))), ""))
       <==> |PageText(body, firstRef)| <= cap
  {
    hide ParseAll, RenderAll, SnapshotOf, Joined, Normalize, Page, WellFormed, Normal, Script, Misfit, Nested, Texts, TokensAt;
    hide AllValid, Printed, Prints, Parts, Sized, Tabled, Owned, Torn, Settles, RunOf, Written;
    var w, page := SnapshotOf(cap, body, firstRef), Page(body, firstRef);
    SnapshotIsPrint(cap, body, firstRef);
    if !w.truncated {
      ParsingUndoesSnapshot(cap, body, firstRef);
    } else if ParseAll(Joined(w.parts)) == Some((Wrapped(Normalize(page)), "")) {
      var ps, printed := Script(body, firstRef), Printed(cap, body, firstRef);
      PrintedExactly(cap, body, firstRef);
      RunOfTracks(cap, body, firstRef);
      ShutNames(ps);
      TokensJoin(ps, printed);
      WhollyParsedPrintsBack(TokensAt(ps, printed), Wrapped(Normalize(page)));
      PageWellFormed(body, firstRef);
      NormalizeSound(Wrapped(page));
      WrappedNormal(page);
      WrappedText(page);
      SizeIsLength(cap, body, firstRef);
      assert false;
    }
  }
}
