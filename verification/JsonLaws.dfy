// Laws of the edits behind JSON Patch.
module JsonLaws {
  import opened Results
  import opened Digits
  import opened Pointer
  import opened JsonTree
  import opened JsonPatch

  // What an edit puts where, what it leaves alone, what undoes it, and what a move conserves.

  // ---- where an insertion lands ---------------------------------------------------------

  /** The pointer under which an inserted value is then found: "-" becomes its index. */
  function Landing<A>(j: Node<A>, p: seq<string>): seq<string>
    requires p != []
    decreases |p|
  {
    if |p| == 1 then
      if j.Arr? && p[0] == "-" then [Decimal(|j.items|)] else p
    else
      var c := Child(j, p[0]);
      if c.Ok? then [p[0]] + Landing(c.value, p[1..]) else p
  }

  /** An array slot, or a key the object does not have. */
  predicate FreshSlot<A>(j: Node<A>, p: seq<string>)
    requires p != []
    decreases |p|
  {
    if |p| == 1 then j.Arr? || (j.Obj? && p[0] !in j.fields)
    else
      var c := Child(j, p[0]);
      c.Ok? && FreshSlot(c.value, p[1..])
  }

  lemma {:induction false} LandingStep<A>(j: Node<A>, p: seq<string>)
    requires |p| > 1 && Child(j, p[0]).Ok?
    ensures Landing(j, p) != [] && Landing(j, p)[0] == p[0]
    ensures Landing(j, p)[1..] == Landing(Child(j, p[0]).value, p[1..]) != []
    decreases |p|
  {
    if |p| > 2 {
      var c := Child(j, p[0]).value;
      if Child(c, p[1]).Ok? { LandingStep(c, p[1..]); }
    }
  }

  lemma {:induction false} AddIsReadBack<A>(j: Node<A>, p: seq<string>, value: Node<A>)
    requires p != [] && Update(j, p, Insert(value)).Ok?
    ensures Get(Update(j, p, Insert(value)).value, Landing(j, p)) == Ok(value)
    decreases |p|
  {
    if |p| == 1 {
      assert Landing(j, p)[1..] == [];
    } else {
      var c := Child(j, p[0]).value;
      AddIsReadBack(c, p[1..], value);
      ReadBack(j, p[0], Update(c, p[1..], Insert(value)).value);
      LandingStep(j, p);
    }
  }

  /** Removing what was added restores the document exactly when the slot was fresh; over an
      existing key the old value is lost. */
  lemma {:induction false} RemoveUndoesAdd<A>(j: Node<A>, p: seq<string>, value: Node<A>)
    requires p != [] && Update(j, p, Insert(value)).Ok?
    ensures Landing(j, p) != []
    ensures Update(Update(j, p, Insert(value)).value, Landing(j, p), Remove) == Ok(j) <==> FreshSlot(j, p)
    decreases |p|
  {
    var r := Update(j, p, Insert(value)).value;
    if |p| == 1 {
      match j
      case Obj(_, fields) =>
        assert fields[p[0] := value] - {p[0]} == fields - {p[0]};
        if p[0] !in fields { assert fields - {p[0]} == fields; }
      case Arr(_, items) =>
        var i := Slot(items, p[0], Insert(value)).value;
        var grown := items[..i] + [value] + items[i..];
        assert grown[..i] + grown[i + 1..] == items;
    } else {
      var c := Child(j, p[0]).value;
      var c' := Update(c, p[1..], Insert(value)).value;
      RemoveUndoesAdd(c, p[1..], value);
      LandingStep(j, p);
      ReadBack(j, p[0], c');
      var undone := Update(c', Landing(c, p[1..]), Remove);
      if undone.Ok? {
        SetTwice(j, p[0], c');
        SetIsIdentity(j, p[0], undone.value);
      }
    }
  }

  lemma SetIsIdentity<A>(j: Node<A>, segment: string, child: Node<A>)
    requires Child(j, segment).Ok?
    ensures SetChild(j, segment, child) == j <==> child == Child(j, segment).value
  {
    if child == Child(j, segment).value {
      match j
      case Arr(_, items) => assert items[ToIndex(segment).value := child] == items;
      case Obj(_, fields) => assert fields[segment := child] == fields;
    } else {
      ReadBack(j, segment, child);
    }
  }

  // ---- what an edit leaves alone --------------------------------------------------------

  predicate SameSlot<A>(j: Node<A>, a: string, b: string) {
    if j.Arr? then ToIndex(a) == ToIndex(b) else a == b
  }

  /** `q` neither stops above the edited container's slot nor runs through the edited slot.
      An array insertion displaces nothing, so every slot of that array is apart from it. */
  predicate Apart<A>(j: Node<A>, p: seq<string>, e: Edit<A>, q: seq<string>)
    requires p != []
    decreases |p|
  {
    q != [] &&
    if |p| == 1 then (j.Arr? && e.Insert?) || !SameSlot(j, p[0], q[0])
    else
      var c := Child(j, p[0]);
      SameSlot(j, p[0], q[0]) && c.Ok? ==> Apart(c.value, p[1..], e, q[1..])
  }

  /** Where the value at `q` is found after the edit: array indices past the slot shift. */
  function Shift<A>(j: Node<A>, p: seq<string>, e: Edit<A>, q: seq<string>): seq<string>
    requires p != []
    decreases |p|
  {
    if q == [] then q
    else if |p| == 1 then
      if j.Arr? && ToIndex(q[0]).Some? then [ShiftIndex(j.items, p[0], e, q[0])] + q[1..] else q
    else
      var c := Child(j, p[0]);
      if SameSlot(j, p[0], q[0]) && c.Ok? then [q[0]] + Shift(c.value, p[1..], e, q[1..]) else q
  }

  function ShiftIndex<A>(items: seq<Node<A>>, slot: string, e: Edit<A>, segment: string): string
    requires ToIndex(segment).Some?
  {
    var k := ToIndex(segment).value;
    var at := Slot(items, slot, e);
    if at.None? then segment
    else if e.Insert? && k >= at.value then Decimal(k + 1)
    else if e.Remove? && k > at.value then Decimal(k - 1)
    else segment
  }

  /** Reads at every other place are unchanged, up to the index shift. */
  lemma {:induction false} OtherReadsUnchanged<A>(j: Node<A>, p: seq<string>, e: Edit<A>, q: seq<string>)
    requires p != [] && Update(j, p, e).Ok? && Apart(j, p, e, q) && Get(j, q).Ok?
    ensures Get(Update(j, p, e).value, Shift(j, p, e, q)) == Get(j, q)
    decreases |p|
  {
    var r := Update(j, p, e).value;
    if |p| == 1 {
      RewriteKeepsOthers(j, p[0], e, q);
      if j.Arr? { assert Shift(j, p, e, q)[1..] == q[1..]; }
    } else {
      var c := Child(j, p[0]).value;
      var c' := Update(c, p[1..], e).value;
      if SameSlot(j, p[0], q[0]) {
        assert Child(j, q[0]) == Ok(c);
        OtherReadsUnchanged(c, p[1..], e, q[1..]);
        ReadBack(j, p[0], c');
        assert Child(r, q[0]) == Ok(c');
        assert Shift(j, p, e, q) != [] && Shift(j, p, e, q)[0] == q[0];
        assert Shift(j, p, e, q)[1..] == Shift(Child(j, p[0]).value, p[1..], e, q[1..]);
      } else {
        assert Child(r, q[0]) == Child(j, q[0]);
      }
    }
  }

  lemma ItemsShift<A>(items: seq<Node<A>>, i: nat, e: Edit<A>, k: nat)
    requires i <= |items| && (e.Remove? ==> i < |items|) && (!e.Insert? ==> k != i) && k < |items|
    ensures var k' := if e.Insert? && k >= i then k + 1 else if e.Remove? && k > i then k - 1 else k;
      k' < |Spliced(items, i, e)| && Spliced(items, i, e)[k'] == items[k]
  {}

  lemma ArrayKeepsOthers<A>(items: seq<Node<A>>, segment: string, e: Edit<A>, at: string)
    requires e.Insert? || ToIndex(segment) != ToIndex(at)
    requires ToIndex(at).Some? && ToIndex(at).value < |items|
    requires Slot(items, segment, e).Some?
    ensures var k := ToIndex(ShiftIndex(items, segment, e, at));
      k.Some? && k.value < |Spliced(items, Slot(items, segment, e).value, e)|
      && Spliced(items, Slot(items, segment, e).value, e)[k.value] == items[ToIndex(at).value]
  {
    ItemsShift(items, Slot(items, segment, e).value, e, ToIndex(at).value);
  }

  lemma RewriteKeepsOthers<A>(j: Node<A>, segment: string, e: Edit<A>, q: seq<string>)
    requires Rewrite(j, segment, e).Ok? && q != []
    requires (j.Arr? && e.Insert?) || !SameSlot(j, segment, q[0])
    requires Child(j, q[0]).Ok?
    ensures j.Arr? ==> ToIndex(q[0]).Some?
    ensures Child(Rewrite(j, segment, e).value, if j.Arr? then ShiftIndex(j.items, segment, e, q[0]) else q[0])
         == Child(j, q[0])
  {
    match j
    case Obj(_, _) =>
    case Arr(_, items) => ArrayKeepsOthers(items, segment, e, q[0]);
  }

  // ---- conservation ---------------------------------------------------------------------

  ghost function SumSeq(s: seq<multiset<Scalar>>): multiset<Scalar> {
    if s == [] then multiset{} else s[0] + SumSeq(s[1..])
  }

  ghost function SumMap(m: map<string, multiset<Scalar>>): multiset<Scalar>
    decreases |m|
  {
    if m == map[] then multiset{}
    else
      var k :| k in m;
      m[k] + SumMap(m - {k})
  }

  /** The scalar leaves of a value, with multiplicity. */
  ghost function Leaves<A>(j: Node<A>): multiset<Scalar> {
    match j
    case Leaf(s) => multiset{s}
    case Arr(_, items) => SumSeq(seq(|items|, i requires 0 <= i < |items| => Leaves(items[i])))
    case Obj(_, fields) => SumMap(map k | k in fields :: Leaves(fields[k]))
  }

  ghost function LeavesOfSeq<A>(items: seq<Node<A>>): multiset<Scalar> {
    SumSeq(seq(|items|, i requires 0 <= i < |items| => Leaves(items[i])))
  }

  ghost function LeavesOfMap<A>(fields: map<string, Node<A>>): map<string, multiset<Scalar>> {
    map k | k in fields :: Leaves(fields[k])
  }

  lemma {:induction false} SumSeqAppends(a: seq<multiset<Scalar>>, b: seq<multiset<Scalar>>)
    ensures SumSeq(a + b) == SumSeq(a) + SumSeq(b)
  {
    if a == [] {
      assert a + b == b;
    } else {
      SumSeqAppends(a[1..], b);
      assert (a + b)[1..] == a[1..] + b;
    }
  }

  lemma LeavesOfSeqAppends<A>(a: seq<Node<A>>, b: seq<Node<A>>)
    ensures LeavesOfSeq(a + b) == LeavesOfSeq(a) + LeavesOfSeq(b)
  {
    var f := (s: seq<Node<A>>) => seq(|s|, i requires 0 <= i < |s| => Leaves(s[i]));
    assert f(a + b) == f(a) + f(b);
    SumSeqAppends(f(a), f(b));
  }

  lemma LeavesOfOne<A>(j: Node<A>)
    ensures LeavesOfSeq([j]) == Leaves(j)
  {
    assert seq(1, i requires 0 <= i < 1 => Leaves([j][i])) == [Leaves(j)];
    assert SumSeq([Leaves(j)][1..]) == multiset{};
  }

  /** The sum does not depend on the order in which keys are picked. */
  lemma {:induction false} SumMapSplits(m: map<string, multiset<Scalar>>, k: string)
    requires k in m
    ensures SumMap(m) == m[k] + SumMap(m - {k})
    decreases |m|
  {
    var k0 :| k0 in m && SumMap(m) == m[k0] + SumMap(m - {k0});
    if k != k0 {
      SumMapSplits(m - {k0}, k);
      SumMapSplits(m - {k}, k0);
      assert m - {k0} - {k} == m - {k} - {k0};
    }
  }

  lemma SumMapUpdated(m: map<string, multiset<Scalar>>, k: string, v: multiset<Scalar>)
    ensures SumMap(m[k := v]) + (if k in m then m[k] else multiset{}) == SumMap(m) + v
    ensures k in m ==> SumMap(m - {k}) + m[k] == SumMap(m)
  {
    SumMapSplits(m[k := v], k);
    assert m[k := v] - {k} == m - {k};
    if k in m {
      SumMapSplits(m, k);
    } else {
      assert m - {k} == m;
    }
  }

  /** The leaves an edit drops: those of the value it removes or overwrites. */
  ghost function Dropped<A>(j: Node<A>, p: seq<string>, e: Edit<A>): multiset<Scalar>
    requires p != []
  {
    var at := Get(j, p);
    if at.Err? || (e.Insert? && FreshSlot(j, p)) then multiset{} else Leaves(at.value)
  }

  ghost function Gained<A>(e: Edit<A>): multiset<Scalar> {
    if e.Remove? then multiset{} else Leaves(e.value)
  }

  lemma SeqParts<A>(items: seq<Node<A>>, i: nat)
    requires i < |items|
    ensures LeavesOfSeq(items) == LeavesOfSeq(items[..i]) + Leaves(items[i]) + LeavesOfSeq(items[i + 1..])
  {
    assert items == items[..i] + ([items[i]] + items[i + 1..]);
    LeavesOfSeqAppends(items[..i], [items[i]] + items[i + 1..]);
    LeavesOfSeqAppends([items[i]], items[i + 1..]);
    LeavesOfOne(items[i]);
  }

  lemma ReplacedLeaves<A>(items: seq<Node<A>>, i: nat, v: Node<A>)
    requires i < |items|
    ensures LeavesOfSeq(items[i := v]) + Leaves(items[i]) == LeavesOfSeq(items) + Leaves(v)
  {
    var items' := items[i := v];
    SeqParts(items, i);
    SeqParts(items', i);
    assert items'[..i] == items[..i] && items'[i + 1..] == items[i + 1..];
  }

  lemma LeavesInside<A>(j: Node<A>)
    ensures j.Arr? ==> Leaves(j) == LeavesOfSeq(j.items)
    ensures j.Obj? ==> Leaves(j) == SumMap(LeavesOfMap(j.fields))
  {
    hide SumSeq, SumMap;
  }

  lemma {:induction false} SetChildLeaves<A>(j: Node<A>, segment: string, child: Node<A>)
    requires Child(j, segment).Ok?
    ensures Leaves(SetChild(j, segment, child)) + Leaves(Child(j, segment).value) == Leaves(j) + Leaves(child)
  {
    hide Leaves, LeavesOfSeq, SumMap;
    LeavesInside(j);
    LeavesInside(SetChild(j, segment, child));
    match j
    case Arr(_, items) => ReplacedLeaves(items, ToIndex(segment).value, child);
    case Obj(_, fields) =>
      var m := LeavesOfMap(fields);
      assert LeavesOfMap(fields[segment := child]) == m[segment := Leaves(child)];
      SumMapUpdated(m, segment, Leaves(child));
  }

  lemma InsertedLeaves<A>(items: seq<Node<A>>, i: nat, v: Node<A>)
    requires i <= |items|
    ensures LeavesOfSeq(items[..i] + [v] + items[i..]) == LeavesOfSeq(items) + Leaves(v)
  {
    var a, b := items[..i], items[i..];
    assert a + b == items;
    LeavesOfSeqAppends(a, b);
    LeavesOfSeqAppends(a + [v], b);
    LeavesOfSeqAppends(a, [v]);
    LeavesOfOne(v);
  }

  lemma RewriteConserves<A>(j: Node<A>, segment: string, e: Edit<A>)
    requires Rewrite(j, segment, e).Ok?
    ensures Leaves(Rewrite(j, segment, e).value) + Dropped(j, [segment], e) == Leaves(j) + Gained(e)
  {
    assert [segment][1..] == [];
    assert Get(j, [segment]) == Child(j, segment);
    match j
    case Arr(_, items) => ArrayConserves(j, segment, e);
    case Obj(_, fields) => ObjectConserves(fields, segment, e);
  }

  lemma ArrayConserves<A>(j: Node<A>, segment: string, e: Edit<A>)
    requires j.Arr? && Rewrite(j, segment, e).Ok?
    ensures Leaves(Rewrite(j, segment, e).value) + (if e.Insert? || Child(j, segment).Err? then multiset{} else Leaves(Child(j, segment).value))
         == Leaves(j) + Gained(e)
  {
    assert !IsDigit('-') && '-' in "-";
    SplicedLeaves(j.items, Slot(j.items, segment, e).value, e);
  }

  lemma SplicedLeaves<A>(items: seq<Node<A>>, i: nat, e: Edit<A>)
    requires i <= |items| && (e.Remove? ==> i < |items|)
    ensures LeavesOfSeq(Spliced(items, i, e)) + (if !e.Insert? && i < |items| then Leaves(items[i]) else multiset{})
         == LeavesOfSeq(items) + Gained(e)
  {
    if e.Insert? {
      InsertedLeaves(items, i, e.value);
    } else if i == |items| {
      InsertedLeaves(items, i, e.value);
      assert items[..i] + [e.value] + items[i..] == items + [e.value];
    } else if e.Replace? {
      ReplacedLeaves(items, i, e.value);
    } else {
      SeqParts(items, i);
      LeavesOfSeqAppends(items[..i], items[i + 1..]);
    }
  }

  lemma ObjectConserves<A>(fields: map<string, Node<A>>, segment: string, e: Edit<A>)
    requires e.Remove? ==> segment in fields
    ensures SumMap(LeavesOfMap(if e.Remove? then fields - {segment} else fields[segment := e.value]))
          + (if segment in fields then Leaves(fields[segment]) else multiset{})
         == SumMap(LeavesOfMap(fields)) + Gained(e)
  {
    hide SumMap, Leaves;
    var m := LeavesOfMap(fields);
    if e.Remove? {
      assert LeavesOfMap(fields - {segment}) == m - {segment};
      SumMapUpdated(m, segment, multiset{});
    } else {
      assert LeavesOfMap(fields[segment := e.value]) == m[segment := Leaves(e.value)];
      SumMapUpdated(m, segment, Leaves(e.value));
    }
  }

  /** Every edit conserves the scalar leaves but for what it drops and what it brings. */
  lemma {:induction false} EditConserves<A>(j: Node<A>, p: seq<string>, e: Edit<A>)
    requires p != [] && Update(j, p, e).Ok?
    ensures Leaves(Update(j, p, e).value) + Dropped(j, p, e) == Leaves(j) + Gained(e)
    decreases |p|
  {
    if |p| == 1 {
      assert p == [p[0]];
      RewriteConserves(j, p[0], e);
    } else {
      var c := Child(j, p[0]).value;
      var c' := Update(c, p[1..], e).value;
      EditConserves(c, p[1..], e);
      SetChildLeaves(j, p[0], c');
      var x, r, y, d, g := Leaves(j), Leaves(SetChild(j, p[0], c')), Leaves(c), Dropped(c, p[1..], e), Gained(e);
      Cancel(r, y, x, Leaves(c'), d, g);
    }
  }

  lemma Cancel(r: multiset<Scalar>, y: multiset<Scalar>, x: multiset<Scalar>, z: multiset<Scalar>,
               d: multiset<Scalar>, g: multiset<Scalar>)
    requires r + y == x + z && z + d == y + g
    ensures r + d == x + g
  {
    forall s
      ensures (r + d)[s] == (x + g)[s]
    {
      assert (r + y)[s] == (x + z)[s] && (z + d)[s] == (y + g)[s];
    }
  }

  /** A move drops what its source has, and the member that it lands on, and brings the value read;
      so unless the source is the whole document it conserves the multiset of scalar leaves except for
      that member, and exactly so onto an array slot or a fresh key. */
  lemma MoveConserves(doc: Json, op: Op<Json>)
    requires op.Move? && ApplyOne(doc, op).Ok?
    ensures var from, p := ParsePointer(op.Source()), EditPath(op.path);
      var value, without := Get(doc, from), Update(doc, EditPath(op.Source()), Remove);
      && value.Ok? && without.Ok?
      && var gone, after := Dropped(without.value, p, Insert(value.value)), Leaves(ApplyOne(doc, op).value);
      && after + gone + Dropped(doc, EditPath(op.Source()), Remove) == Leaves(doc) + Leaves(value.value)
      && (from != [] ==> after + gone == Leaves(doc))
      && (from != [] && FreshSlot(without.value, p) ==> after == Leaves(doc))
  {
    hide Leaves, Dropped, Update, Get, ParsePointer, EditPath, IsInside, FreshSlot;
    var from, p := ParsePointer(op.Source()), EditPath(op.path);
    var source := EditPath(op.Source());
    var value, without := Get(doc, from).value, Update(doc, source, Remove).value;
    var after, gone, taken := Leaves(ApplyOne(doc, op).value), Dropped(without, p, Insert(value)), Dropped(doc, source, Remove);
    EditConserves(doc, source, Remove);
    EditConserves(without, p, Insert(value));
    Balance(Leaves(without), taken, Leaves(doc), after, gone, Leaves(value));
    if FreshSlot(without, p) { FreshDropsNothing(without, p, value); }
    if from != [] { TakenIsRead(doc, op.Source()); }
  }

  lemma Balance<T>(without: multiset<T>, taken: multiset<T>, doc: multiset<T>, after: multiset<T>, gone: multiset<T>, value: multiset<T>)
    requires without + taken == doc && after + gone == without + value
    ensures after + gone + taken == doc + value
    ensures taken == value ==> after + gone == doc
    ensures taken == value && gone == multiset{} ==> after == doc
  {
    assert after + gone + taken == without + taken + value;
  }

  lemma FreshDropsNothing(n: Json, p: seq<string>, value: Json)
    requires p != [] && FreshSlot(n, p)
    ensures Dropped(n, p, Insert(value)) == multiset{}
  {}

  lemma TakenIsRead(doc: Json, from: string)
    requires ParsePointer(from) != [] && Get(doc, ParsePointer(from)).Ok?
    ensures Dropped(doc, EditPath(from), Remove) == Leaves(Get(doc, ParsePointer(from)).value)
  {}
}
