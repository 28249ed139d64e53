// Stable sorting under a comparator of which only the sign matters: the one permutation that is
// ordered and keeps ties as they were, and a sort by the comparator and then by the index.
module StableSort {
  // Decorate with indices, sort with the index as tie-breaker, undecorate. `Array.prototype.sort`
  // is any method meeting its contract.

  /** A comparator that totally preorders the elements of `dom`; only its sign matters. */
  ghost predicate Preorders<T(!new)>(cmp: (T, T) -> int, dom: set<T>) {
    && (forall a, b | a in dom && b in dom :: cmp(a, b) < 0 <==> cmp(b, a) > 0)
    && (forall a, b, c | a in dom && b in dom && c in dom :: cmp(a, b) <= 0 && cmp(b, c) <= 0 ==> cmp(a, c) <= 0)
  }

  lemma Flips<T(!new)>(cmp: (T, T) -> int, dom: set<T>, a: T, b: T)
    requires Preorders(cmp, dom) && a in dom && b in dom
    ensures (cmp(a, b) < 0 <==> cmp(b, a) > 0) && (cmp(a, b) > 0 <==> cmp(b, a) < 0) && cmp(a, a) == 0
  {
    assert cmp(a, a) < 0 <==> cmp(a, a) > 0;
  }

  lemma Chains<T(!new)>(cmp: (T, T) -> int, dom: set<T>, a: T, b: T, c: T)
    requires Preorders(cmp, dom) && a in dom && b in dom && c in dom && cmp(a, b) <= 0 && cmp(b, c) <= 0
    ensures cmp(a, c) <= 0
  {}

  ghost predicate Within<T>(s: seq<T>, dom: set<T>) {
    forall x <- s :: x in dom
  }

  ghost predicate Ordered<T>(cmp: (T, T) -> int, s: seq<T>) {
    forall i, j | 0 <= i < j < |s| :: cmp(s[i], s[j]) <= 0
  }

  function Filter<T>(p: T -> bool, s: seq<T>): seq<T> {
    if s == [] then []
    else if p(s[0]) then [s[0]] + Filter(p, s[1..])
    else Filter(p, s[1..])
  }

  /** The elements that compare equal to `x`, in order of appearance. */
  function Ties<T>(cmp: (T, T) -> int, s: seq<T>, x: T): seq<T> {
    if s == [] then []
    else if cmp(s[0], x) == 0 then [s[0]] + Ties(cmp, s[1..], x)
    else Ties(cmp, s[1..], x)
  }

  // ---- the reference sort -----------------------------------------------------------------

  /** In front of the first element that is not smaller. */
  function Insert<T>(cmp: (T, T) -> int, x: T, s: seq<T>): (r: seq<T>)
    ensures |r| == |s| + 1
  {
    if s == [] || cmp(x, s[0]) <= 0 then [x] + s else [s[0]] + Insert(cmp, x, s[1..])
  }

  function Sorted<T>(cmp: (T, T) -> int, s: seq<T>): (r: seq<T>)
    ensures |r| == |s|
  {
    if s == [] then [] else Insert(cmp, s[0], Sorted(cmp, s[1..]))
  }

  lemma {:induction false} InsertPermutes<T>(cmp: (T, T) -> int, x: T, s: seq<T>)
    ensures multiset(Insert(cmp, x, s)) == multiset(s) + multiset{x}
  {
    if s != [] && cmp(x, s[0]) > 0 {
      InsertPermutes(cmp, x, s[1..]);
      assert s == [s[0]] + s[1..];
    }
  }

  lemma {:induction false} SortedPermutes<T>(cmp: (T, T) -> int, s: seq<T>)
    ensures multiset(Sorted(cmp, s)) == multiset(s)
  {
    if s != [] {
      SortedPermutes(cmp, s[1..]);
      InsertPermutes(cmp, s[0], Sorted(cmp, s[1..]));
      assert s == [s[0]] + s[1..];
    }
  }

  lemma SameElements<T>(a: seq<T>, b: seq<T>)
    requires multiset(a) == multiset(b)
    ensures |a| == |b| && forall x :: x in a <==> x in b
  {
    assert |multiset(a)| == |a| && |multiset(b)| == |b|;
    forall x ensures x in a <==> x in b {
      assert x in a <==> x in multiset(a);
      assert x in b <==> x in multiset(b);
    }
  }

  lemma InsertHas<T>(cmp: (T, T) -> int, x: T, s: seq<T>, y: T)
    ensures y in Insert(cmp, x, s) <==> y == x || y in s
  {
    InsertPermutes(cmp, x, s);
    assert y in Insert(cmp, x, s) <==> y in multiset(Insert(cmp, x, s));
    assert y in s <==> y in multiset(s);
  }

  lemma OrderedCons<T>(cmp: (T, T) -> int, x: T, s: seq<T>)
    requires Ordered(cmp, s) && forall y <- s :: cmp(x, y) <= 0
    ensures Ordered(cmp, [x] + s)
  {}

  lemma {:induction false} InsertOrders<T(!new)>(cmp: (T, T) -> int, dom: set<T>, x: T, s: seq<T>)
    requires Preorders(cmp, dom) && x in dom && Within(s, dom) && Ordered(cmp, s)
    ensures Ordered(cmp, Insert(cmp, x, s))
  {
    hide Preorders;
    if s == [] {
    } else if cmp(x, s[0]) <= 0 {
      forall y | y in s ensures cmp(x, y) <= 0 {
        var j :| 0 <= j < |s| && s[j] == y;
        if j > 0 { Chains(cmp, dom, x, s[0], s[j]); }
      }
      OrderedCons(cmp, x, s);
    } else {
      var r := Insert(cmp, x, s[1..]);
      InsertOrders(cmp, dom, x, s[1..]);
      Flips(cmp, dom, x, s[0]);
      forall y | y in r ensures cmp(s[0], y) <= 0 {
        InsertHas(cmp, x, s[1..], y);
      }
      OrderedCons(cmp, s[0], r);
    }
  }

  lemma {:induction false} SortedOrders<T(!new)>(cmp: (T, T) -> int, dom: set<T>, s: seq<T>)
    requires Preorders(cmp, dom) && Within(s, dom)
    ensures Ordered(cmp, Sorted(cmp, s)) && Within(Sorted(cmp, s), dom)
  {
    hide Preorders;
    SortedPermutes(cmp, s);
    SameElements(Sorted(cmp, s), s);
    if s != [] {
      SortedOrders(cmp, dom, s[1..]);
      InsertOrders(cmp, dom, s[0], Sorted(cmp, s[1..]));
    }
  }

  // ---- ties keep their order --------------------------------------------------------------

  lemma {:induction false} InsertKeepsTies<T(!new)>(cmp: (T, T) -> int, dom: set<T>, x: T, s: seq<T>, y: T)
    requires Preorders(cmp, dom) && Within(s, dom) && x in dom && y in dom && Ordered(cmp, s)
    ensures Ties(cmp, Insert(cmp, x, s), y) == if cmp(x, y) == 0 then [x] + Ties(cmp, s, y) else Ties(cmp, s, y)
  {
    hide Preorders, Ordered;
    if s == [] || cmp(x, s[0]) <= 0 {
      TiesCons(cmp, x, s, y);
    } else {
      OrderedTail(cmp, s);
      InsertKeepsTies(cmp, dom, x, s[1..], y);
      TiesCons(cmp, s[0], Insert(cmp, x, s[1..]), y);
      if cmp(x, y) == 0 && cmp(s[0], y) == 0 {
        // impossible: x is strictly larger than s[0]
        Flips(cmp, dom, s[0], y);
        Chains(cmp, dom, x, y, s[0]);
      }
    }
  }

  lemma TiesCons<T>(cmp: (T, T) -> int, x: T, s: seq<T>, y: T)
    ensures Ties(cmp, [x] + s, y) == if cmp(x, y) == 0 then [x] + Ties(cmp, s, y) else Ties(cmp, s, y)
  {
    assert ([x] + s)[1..] == s;
  }

  lemma OrderedTail<T>(cmp: (T, T) -> int, s: seq<T>)
    requires Ordered(cmp, s) && s != []
    ensures Ordered(cmp, s[1..]) && forall y <- s[1..] :: cmp(s[0], y) <= 0
  {}

  lemma {:induction false} SortedKeepsTies<T(!new)>(cmp: (T, T) -> int, dom: set<T>, s: seq<T>, y: T)
    requires Preorders(cmp, dom) && Within(s, dom) && y in dom
    ensures Ties(cmp, Sorted(cmp, s), y) == Ties(cmp, s, y)
  {
    hide Preorders, Ordered;
    if s != [] {
      SortedKeepsTies(cmp, dom, s[1..], y);
      SortedOrders(cmp, dom, s[1..]);
      assert s[0] in s;
      InsertKeepsTies(cmp, dom, s[0], Sorted(cmp, s[1..]), y);
    }
  }

  // ---- uniqueness -------------------------------------------------------------------------

  ghost predicate SameTies<T(!new)>(cmp: (T, T) -> int, dom: set<T>, a: seq<T>, b: seq<T>) {
    forall y | y in dom :: Ties(cmp, a, y) == Ties(cmp, b, y)
  }

  /** Two ordered permutations of each other start alike if they keep ties alike. */
  lemma HeadsAgree<T(!new)>(cmp: (T, T) -> int, dom: set<T>, a: seq<T>, b: seq<T>)
    requires Preorders(cmp, dom) && Within(a, dom) && Within(b, dom)
    requires Ordered(cmp, a) && Ordered(cmp, b) && multiset(a) == multiset(b) && a != []
    requires SameTies(cmp, dom, a, b)
    ensures b != [] && a[0] == b[0]
  {
    hide Preorders, Ordered;
    SameElements(a, b);
    assert a[0] in a && b[0] in b;
    HeadIsLeast(cmp, dom, a, b[0]);
    HeadIsLeast(cmp, dom, b, a[0]);
    Flips(cmp, dom, a[0], b[0]);
    assert Ties(cmp, a, a[0])[0] == a[0];
    assert Ties(cmp, b, a[0])[0] == b[0];
  }

  lemma HeadIsLeast<T(!new)>(cmp: (T, T) -> int, dom: set<T>, s: seq<T>, y: T)
    requires Preorders(cmp, dom) && Within(s, dom) && Ordered(cmp, s) && y in s
    ensures cmp(s[0], y) <= 0 && cmp(y, y) == 0 && cmp(s[0], s[0]) == 0
  {
    hide Preorders;
    assert s[0] in s;
    Flips(cmp, dom, s[0], y);
    Flips(cmp, dom, y, y);
    var i :| 0 <= i < |s| && s[i] == y;
    if i > 0 { assert cmp(s[0], s[i]) <= 0; }
  }

  lemma TailPermutes<T>(a: seq<T>, b: seq<T>)
    requires multiset(a) == multiset(b) && a != [] && b != [] && a[0] == b[0]
    ensures multiset(a[1..]) == multiset(b[1..])
  {
    assert a == [a[0]] + a[1..] && b == [b[0]] + b[1..];
    assert multiset(a[1..]) == multiset(a) - multiset{a[0]};
    assert multiset(b[1..]) == multiset(b) - multiset{b[0]};
  }

  /** An ordered permutation that keeps ties in order is unique. */
  lemma {:induction false} StableOrderIsUnique<T(!new)>(cmp: (T, T) -> int, dom: set<T>, a: seq<T>, b: seq<T>)
    requires Preorders(cmp, dom) && Within(a, dom) && Within(b, dom)
    requires Ordered(cmp, a) && Ordered(cmp, b) && multiset(a) == multiset(b)
    requires SameTies(cmp, dom, a, b)
    ensures a == b
    decreases |a|
  {
    hide Preorders, Ordered;
    SameElements(a, b);
    if a != [] {
      HeadsAgree(cmp, dom, a, b);
      TailPermutes(a, b);
      OrderedTail(cmp, a);
      OrderedTail(cmp, b);
      TailTies(cmp, dom, a, b);
      StableOrderIsUnique(cmp, dom, a[1..], b[1..]);
      assert a == [a[0]] + a[1..] && b == [b[0]] + b[1..];
    }
  }

  lemma TailTies<T(!new)>(cmp: (T, T) -> int, dom: set<T>, a: seq<T>, b: seq<T>)
    requires a != [] && b != [] && a[0] == b[0] && SameTies(cmp, dom, a, b)
    ensures SameTies(cmp, dom, a[1..], b[1..])
  {
    forall y | y in dom ensures Ties(cmp, a[1..], y) == Ties(cmp, b[1..], y) {
      assert Ties(cmp, a, y) == Ties(cmp, b, y);
      assert ([a[0]] + Ties(cmp, a[1..], y))[1..] == Ties(cmp, a[1..], y);
      assert ([a[0]] + Ties(cmp, b[1..], y))[1..] == Ties(cmp, b[1..], y);
    }
  }

  /** The reference sort is the one ordered permutation that keeps ties in input order. */
  lemma SortedIsTheStableOrder<T(!new)>(cmp: (T, T) -> int, dom: set<T>, s: seq<T>, r: seq<T>)
    requires Preorders(cmp, dom) && Within(s, dom)
    ensures r == Sorted(cmp, s)
       <==> Ordered(cmp, r) && multiset(r) == multiset(s) && SameTies(cmp, dom, r, s)
  {
    hide Preorders, Ordered;
    SortedOrders(cmp, dom, s);
    SortedPermutes(cmp, s);
    forall y | y in dom ensures Ties(cmp, Sorted(cmp, s), y) == Ties(cmp, s, y) { SortedKeepsTies(cmp, dom, s, y); }
    if Ordered(cmp, r) && multiset(r) == multiset(s) && SameTies(cmp, dom, r, s) {
      SameElements(r, s);
      assert SameTies(cmp, dom, r, Sorted(cmp, s));
      StableOrderIsUnique(cmp, dom, r, Sorted(cmp, s));
    }
  }

  // ---- decorate, sort, undecorate -----------------------------------------------------------

  datatype Item<T> = Item(val: T, idx: int)

  function Decorate<T>(s: seq<T>, from: int): (r: seq<Item<T>>)
    ensures |r| == |s| && forall i | 0 <= i < |s| :: r[i] == Item(s[i], from + i)
  {
    seq(|s|, i requires 0 <= i < |s| => Item(s[i], from + i))
  }

  function Undecorate<T>(s: seq<Item<T>>): (r: seq<T>)
    ensures |r| == |s| && forall i | 0 <= i < |s| :: r[i] == s[i].val
  {
    seq(|s|, i requires 0 <= i < |s| => s[i].val)
  }

  /** `cmp !== 0 ? cmp : a.idx - b.idx` */
  function TieBroken<T>(cmp: (T, T) -> int): (Item<T>, Item<T>) -> int {
    (a: Item<T>, b: Item<T>) => if cmp(a.val, b.val) != 0 then cmp(a.val, b.val) else a.idx - b.idx
  }

  ghost function DecoratedDomain<T(!new)>(s: seq<T>): set<Item<T>> {
    set i | 0 <= i < |s| :: Item(s[i], i)
  }

  lemma TieBrokenPreorders<T(!new)>(cmp: (T, T) -> int, dom: set<T>, s: seq<T>)
    requires Preorders(cmp, dom) && Within(s, dom)
    ensures Preorders(TieBroken(cmp), DecoratedDomain(s))
    ensures forall a, b | a in DecoratedDomain(s) && b in DecoratedDomain(s) :: TieBroken(cmp)(a, b) == 0 ==> a == b
  {
    var d, c := DecoratedDomain(s), TieBroken(cmp);
    forall a, b | a in d && b in d
      ensures c(a, b) < 0 <==> c(b, a) > 0
      ensures c(a, b) == 0 ==> a == b
    {
      TieBrokenFlips(cmp, dom, s, a, b);
    }
    forall a, b, e | a in d && b in d && e in d && c(a, b) <= 0 && c(b, e) <= 0
      ensures c(a, e) <= 0
    {
      TieBrokenChains(cmp, dom, s, a, b, e);
    }
  }

  lemma TieBrokenFlips<T(!new)>(cmp: (T, T) -> int, dom: set<T>, s: seq<T>, a: Item<T>, b: Item<T>)
    requires Preorders(cmp, dom) && Within(s, dom) && a in DecoratedDomain(s) && b in DecoratedDomain(s)
    ensures TieBroken(cmp)(a, b) < 0 <==> TieBroken(cmp)(b, a) > 0
    ensures TieBroken(cmp)(a, b) == 0 ==> a == b
  {
    hide Preorders;
    Flips(cmp, dom, a.val, b.val);
  }

  lemma TieBrokenChains<T(!new)>(cmp: (T, T) -> int, dom: set<T>, s: seq<T>, a: Item<T>, b: Item<T>, e: Item<T>)
    requires Preorders(cmp, dom) && Within(s, dom)
    requires a in DecoratedDomain(s) && b in DecoratedDomain(s) && e in DecoratedDomain(s)
    requires TieBroken(cmp)(a, b) <= 0 && TieBroken(cmp)(b, e) <= 0
    ensures TieBroken(cmp)(a, e) <= 0
  {
    hide Preorders;
    Flips(cmp, dom, a.val, b.val);
    Flips(cmp, dom, b.val, e.val);
    Flips(cmp, dom, a.val, e.val);
    Chains(cmp, dom, a.val, b.val, e.val);
    if cmp(a.val, e.val) == 0 {
      Chains(cmp, dom, e.val, a.val, b.val);
      Chains(cmp, dom, b.val, e.val, a.val);
    }
  }

  /** A strict order has one ordered permutation. */
  lemma {:induction false} StrictOrderIsUnique<T(!new)>(cmp: (T, T) -> int, dom: set<T>, a: seq<T>, b: seq<T>)
    requires Preorders(cmp, dom) && (forall x, y | x in dom && y in dom :: cmp(x, y) == 0 ==> x == y)
    requires Within(a, dom) && Within(b, dom) && Ordered(cmp, a) && Ordered(cmp, b) && multiset(a) == multiset(b)
    ensures a == b
    decreases |a|
  {
    SameElements(a, b);
    if a != [] {
      assert a[0] in b && b[0] in a by { assert a[0] in a && b[0] in b; }
      StrictHeads(cmp, dom, a, b);
      TailPermutes(a, b);
      OrderedTail(cmp, a);
      OrderedTail(cmp, b);
      hide Preorders, Ordered;
      StrictOrderIsUnique(cmp, dom, a[1..], b[1..]);
      assert a == [a[0]] + a[1..] && b == [b[0]] + b[1..];
    }
  }

  lemma StrictHeads<T(!new)>(cmp: (T, T) -> int, dom: set<T>, a: seq<T>, b: seq<T>)
    requires Preorders(cmp, dom) && (forall x, y | x in dom && y in dom :: cmp(x, y) == 0 ==> x == y)
    requires Within(a, dom) && Within(b, dom) && Ordered(cmp, a) && Ordered(cmp, b)
    requires a != [] && b != [] && a[0] in b && b[0] in a
    ensures a[0] == b[0]
  {
    hide Preorders, Ordered;
    HeadIsLeast(cmp, dom, a, b[0]);
    HeadIsLeast(cmp, dom, b, a[0]);
    Flips(cmp, dom, a[0], b[0]);
  }

  /** Sorting with the tie-breaker and dropping the indices is the stable sort. */
  lemma {:induction false} TieBreakingIsStable<T>(cmp: (T, T) -> int, s: seq<T>, from: int)
    ensures Undecorate(Sorted(TieBroken(cmp), Decorate(s, from))) == Sorted(cmp, s)
    decreases |s|
  {
    if s != [] {
      TieBreakingIsStable(cmp, s[1..], from + 1);
      var later := Decorate(s[1..], from + 1);
      assert Decorate(s, from)[1..] == later;
      var rest := Sorted(TieBroken(cmp), later);
      SortedPermutes(TieBroken(cmp), later);
      SameElements(rest, later);
      forall y | y in rest ensures y.idx > from {
        Member(rest, later, y);
        var i :| 0 <= i < |later| && later[i] == y;
      }
      InsertUndecorates(cmp, Item(s[0], from), rest);
    }
  }

  lemma Member<T>(a: seq<T>, b: seq<T>, y: T)
    requires multiset(a) == multiset(b) && y in a
    ensures y in b
  {
    assert y in multiset(a);
  }

  lemma {:induction false} InsertUndecorates<T>(cmp: (T, T) -> int, x: Item<T>, s: seq<Item<T>>)
    requires forall y <- s :: y.idx > x.idx
    ensures Undecorate(Insert(TieBroken(cmp), x, s)) == Insert(cmp, x.val, Undecorate(s))
  {
    if s != [] {
      assert s[0] in s;
      assert TieBroken(cmp)(x, s[0]) <= 0 <==> cmp(x.val, s[0].val) <= 0;
      assert Undecorate(s)[1..] == Undecorate(s[1..]);
      if cmp(x.val, s[0].val) > 0 {
        InsertUndecorates(cmp, x, s[1..]);
      }
    }
  }

  /** `Array.prototype.sort`: a permutation, and an ordered one if the comparator orders the
      elements at all; nothing is promised about how. */
  method ArraySort<T(!new)>(s: seq<T>, cmp: (T, T) -> int, ghost dom: set<T>) returns (r: seq<T>)
    ensures multiset(r) == multiset(s)
    ensures Preorders(cmp, dom) && Within(s, dom) ==> Ordered(cmp, r)
  {
    r := [];
    var i := |s|;
    while i > 0
      invariant 0 <= i <= |s| && r == Sorted(cmp, s[i..])
    {
      i := i - 1;
      assert s[i..][1..] == s[i + 1..];
      r := Insert(cmp, s[i], r);
    }
    assert s[0..] == s;
    SortedPermutes(cmp, s);
    if Preorders(cmp, dom) && Within(s, dom) { SortedOrders(cmp, dom, s); }
  }

  lemma CancelOne<T>(x: T, a: multiset<T>, b: multiset<T>)
    requires multiset{x} + a == multiset{x} + b
    ensures a == b
  {
    forall y ensures a[y] == b[y] {
      assert (multiset{x} + a)[y] == (multiset{x} + b)[y];
    }
  }

  lemma ToTheFront<T>(b: seq<T>, j: nat)
    requires j < |b|
    ensures multiset(b) == multiset{b[j]} + multiset(b[..j] + b[j + 1..])
  {
    assert b == b[..j] + ([b[j]] + b[j + 1..]);
  }

  function Values<T>(s: seq<Item<T>>): multiset<T> {
    multiset(Undecorate(s))
  }

  lemma ValuesWithout<T>(b: seq<Item<T>>, j: nat)
    requires j < |b|
    ensures Values(b) == multiset{b[j].val} + Values(b[..j] + b[j + 1..])
  {
    ToTheFront(Undecorate(b), j);
    assert Undecorate(b)[..j] + Undecorate(b)[j + 1..] == Undecorate(b[..j] + b[j + 1..]);
  }

  lemma ValuesOfTail<T>(a: seq<Item<T>>)
    requires a != []
    ensures Values(a) == multiset{a[0].val} + Values(a[1..])
  {
    ValuesWithout(a, 0);
    assert a[..0] + a[1..] == a[1..];
  }

  lemma {:induction false} FrontTaken<T>(a: seq<T>, b: seq<T>) returns (j: nat)
    requires a != [] && multiset(a) == multiset(b)
    ensures j < |b| && b[j] == a[0] && multiset(a[1..]) == multiset(b[..j] + b[j + 1..])
  {
    Member(a, b, a[0]);
    j :| 0 <= j < |b| && b[j] == a[0];
    ToTheFront(a, 0);
    ToTheFront(b, j);
    assert a[..0] + a[1..] == a[1..];
    CancelOne(a[0], multiset(a[1..]), multiset(b[..j] + b[j + 1..]));
  }

  lemma {:induction false} UndecoratePermutes<T>(a: seq<Item<T>>, b: seq<Item<T>>)
    requires multiset(a) == multiset(b)
    ensures Values(a) == Values(b)
  {
    if a == [] {
      SameElements(a, b);
      assert b == [];
    } else {
      hide Values;
      var j := FrontTaken(a, b);
      ValuesOfTail(a);
      ValuesWithout(b, j);
      UndecoratePermutes(a[1..], b[..j] + b[j + 1..]);
    }
  }

  /** Whatever ordered permutation the built-in sort returns, `stableSort` is the reference; with
      a comparator that does not order the elements it is still a permutation. */
  method StableSorting<T(!new)>(arr: seq<T>, cmp: (T, T) -> int, ghost dom: set<T>) returns (r: seq<T>)
    ensures multiset(r) == multiset(arr)
    ensures Preorders(cmp, dom) && Within(arr, dom) ==> r == Sorted(cmp, arr)
  {
    var indexed := Decorate(arr, 0);
    ghost var d := DecoratedDomain(arr);
    var sorted := ArraySort(indexed, TieBroken(cmp), d);
    r := Undecorate(sorted);
    UndecoratePermutes(sorted, indexed);
    assert Undecorate(indexed) == arr;
    if Preorders(cmp, dom) && Within(arr, dom) {
      TieBrokenPreorders(cmp, dom, arr);
      OnlyOneOrder(cmp, dom, arr, sorted);
    }
  }

  lemma OnlyOneOrder<T(!new)>(cmp: (T, T) -> int, dom: set<T>, arr: seq<T>, sorted: seq<Item<T>>)
    requires Preorders(cmp, dom) && Within(arr, dom)
    requires multiset(sorted) == multiset(Decorate(arr, 0)) && Ordered(TieBroken(cmp), sorted)
    ensures Undecorate(sorted) == Sorted(cmp, arr)
  {
    hide Sorted, Ordered;
    var indexed, d := Decorate(arr, 0), DecoratedDomain(arr);
    TieBrokenPreorders(cmp, dom, arr);
    SameElements(sorted, indexed);
    SortedOrders(TieBroken(cmp), d, indexed);
    SortedPermutes(TieBroken(cmp), indexed);
    StrictOrderIsUnique(TieBroken(cmp), d, sorted, Sorted(TieBroken(cmp), indexed));
    TieBreakingIsStable(cmp, arr, 0);
  }

  // ---- filtering and sorting commute --------------------------------------------------------

  lemma FilterCons<T>(p: T -> bool, x: T, s: seq<T>)
    ensures Filter(p, [x] + s) == if p(x) then [x] + Filter(p, s) else Filter(p, s)
  {
    assert ([x] + s)[1..] == s;
  }

  lemma {:induction false} FilterInsert<T(!new)>(cmp: (T, T) -> int, dom: set<T>, p: T -> bool, x: T, s: seq<T>)
    requires Preorders(cmp, dom) && Within(s, dom) && x in dom && Ordered(cmp, s)
    ensures Filter(p, Insert(cmp, x, s)) == if p(x) then Insert(cmp, x, Filter(p, s)) else Filter(p, s)
  {
    hide Preorders, Ordered;
    if s == [] || cmp(x, s[0]) <= 0 {
      FilterCons(p, x, s);
      if p(x) { InsertInFront(cmp, dom, p, x, s); }
    } else {
      OrderedTail(cmp, s);
      FilterInsert(cmp, dom, p, x, s[1..]);
      FilterCons(p, s[0], Insert(cmp, x, s[1..]));
      if p(s[0]) {
        var f := Filter(p, s[1..]);
        assert ([s[0]] + f)[1..] == f;
      }
    }
  }

  /** An element not larger than any goes in front, whatever was filtered out. */
  lemma {:induction false} InsertInFront<T(!new)>(cmp: (T, T) -> int, dom: set<T>, p: T -> bool, x: T, s: seq<T>)
    requires Preorders(cmp, dom) && Within(s, dom) && x in dom && Ordered(cmp, s)
    requires s == [] || cmp(x, s[0]) <= 0
    ensures Insert(cmp, x, Filter(p, s)) == [x] + Filter(p, s)
  {
    hide Preorders;
    if s != [] && !p(s[0]) {
      if |s| > 1 {
        assert cmp(s[0], s[1]) <= 0;
        Chains(cmp, dom, x, s[0], s[1]);
      }
      InsertInFront(cmp, dom, p, x, s[1..]);
    }
  }

  /** Filtering and then sorting is sorting and then filtering. */
  lemma {:induction false} FilterSorted<T(!new)>(cmp: (T, T) -> int, dom: set<T>, p: T -> bool, s: seq<T>)
    requires Preorders(cmp, dom) && Within(s, dom)
    ensures Sorted(cmp, Filter(p, s)) == Filter(p, Sorted(cmp, s))
  {
    hide Preorders, Ordered;
    if s != [] {
      FilterSorted(cmp, dom, p, s[1..]);
      SortedOrders(cmp, dom, s[1..]);
      FilterInsert(cmp, dom, p, s[0], Sorted(cmp, s[1..]));
      var f := Filter(p, s[1..]);
      assert ([s[0]] + f)[1..] == f;
    }
  }
}
