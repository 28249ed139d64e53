// The heap in which evals/corpus/json-patch/patch.ts edits its draft: containers are cells that
// `splice`, `push` and property writes change in place. A tree that remembers the cell of each of
// its containers says what a heap value holds, provided that no cell occurs in it twice; one
// write to one cell of such a tree is then one edit of it, and leaves a tree again.
module JsonHeap {
  import opened Results
  import opened JsonTree

  /** A JavaScript value: an immediate scalar or a reference to a container. */
  datatype Val = Prim(scalar: Scalar) | Ref(ref: nat)

  datatype Cell = ArrCell(items: seq<Val>) | ObjCell(fields: map<string, Val>)

  type Cells = map<nat, Cell>

  /** A JSON tree that remembers which cell each container is. */
  type Tree = Node<nat>

  function Root(t: Tree): Val {
    match t
    case Leaf(s) => Prim(s)
    case Arr(r, _) => Ref(r)
    case Obj(r, _) => Ref(r)
  }

  function CellOf(t: Tree): Cell
    requires !t.Leaf?
  {
    match t
    case Arr(_, items) => ArrCell(seq(|items|, i requires 0 <= i < |items| => Root(items[i])))
    case Obj(_, fields) => ObjCell(map k | k in fields :: Root(fields[k]))
  }

  predicate Matches(h: Cells, t: Tree) {
    match t
    case Leaf(_) => true
    case Arr(r, items) =>
      r in h && h[r] == CellOf(t) && forall i :: 0 <= i < |items| ==> Matches(h, items[i])
    case Obj(r, fields) =>
      r in h && h[r] == CellOf(t) && forall k :: k in fields ==> Matches(h, fields[k])
  }

  ghost function Refs(t: Tree): set<nat> {
    match t
    case Leaf(_) => {}
    case Arr(r, items) => {r} + RefsOfSeq(items)
    case Obj(r, fields) => {r} + set k, x | k in fields && x in Refs(fields[k]) :: x
  }

  ghost function RefsOfSeq(items: seq<Tree>): set<nat> {
    set i, x | 0 <= i < |items| && x in Refs(items[i]) :: x
  }

  /** No cell occurs twice: the value is a tree, not a graph. */
  ghost predicate Distinct(t: Tree) {
    match t
    case Leaf(_) => true
    case Arr(r, items) =>
      && r !in RefsOfSeq(items)
      && Apart2(items)
      && forall i :: 0 <= i < |items| ==> Distinct(items[i])
    case Obj(r, fields) =>
      && (forall k :: k in fields ==> r !in Refs(fields[k]) && Distinct(fields[k]))
      && forall k, l :: k in fields && l in fields && k != l ==> Refs(fields[k]) !! Refs(fields[l])
  }

  ghost predicate Apart2(items: seq<Tree>) {
    forall i, j :: 0 <= i < j < |items| ==> Refs(items[i]) !! Refs(items[j])
  }

  lemma {:induction false} Frame(h: Cells, h': Cells, t: Tree)
    requires Matches(h, t)
    requires forall r :: r in Refs(t) && r in h ==> r in h' && h'[r] == h[r]
    ensures Matches(h', t)
  {
    match t
    case Leaf(_) =>
    case Arr(r, items) =>
      assert r in Refs(t);
      forall i | 0 <= i < |items|
        ensures Matches(h', items[i])
      {
        assert Refs(items[i]) <= Refs(t);
        Frame(h, h', items[i]);
      }
    case Obj(r, fields) =>
      assert r in Refs(t);
      forall k | k in fields
        ensures Matches(h', fields[k])
      {
        assert Refs(fields[k]) <= Refs(t);
        Frame(h, h', fields[k]);
      }
  }

  lemma {:induction false} RefsAllocated(h: Cells, t: Tree)
    requires Matches(h, t)
    ensures Refs(t) <= h.Keys
  {
    match t
    case Leaf(_) =>
    case Arr(_, items) =>
      forall i | 0 <= i < |items| ensures Refs(items[i]) <= h.Keys { RefsAllocated(h, items[i]); }
    case Obj(_, fields) =>
      forall k | k in fields ensures Refs(fields[k]) <= h.Keys { RefsAllocated(h, fields[k]); }
  }

  lemma ChildRefs(t: Tree, segment: string)
    requires Child(t, segment).Ok?
    ensures Refs(Child(t, segment).value) <= Refs(t)
    ensures Distinct(t) ==> t.tag !in Refs(Child(t, segment).value) && Distinct(Child(t, segment).value)
  {}

  lemma OwnTag(t: Tree)
    requires !t.Leaf?
    ensures t.tag in Refs(t)
  {}

  lemma ChildMatches(h: Cells, t: Tree, segment: string)
    requires Child(t, segment).Ok? && Matches(h, t)
    ensures Matches(h, Child(t, segment).value)
  {}

  lemma {:induction false} GetParts(h: Cells, t: Tree, p: seq<string>)
    requires Get(t, p).Ok? && Matches(h, t) && Distinct(t)
    ensures Matches(h, Get(t, p).value) && Distinct(Get(t, p).value)
    ensures Refs(Get(t, p).value) <= Refs(t)
  {
    if p != [] {
      ChildRefs(t, p[0]);
      GetParts(h, Child(t, p[0]).value, p[1..]);
    }
  }

  // ---- one write in the heap is one edit of the tree ------------------------------------

  ghost function EditRefs(e: Edit<nat>): set<nat> {
    if e.Remove? then {} else Refs(e.value)
  }

  /** The edit's value is a tree of its own, in the heap. */
  ghost predicate Usable(h: Cells, t: Tree, e: Edit<nat>) {
    !e.Remove? ==> Matches(h, e.value) && Distinct(e.value) && Refs(e.value) !! Refs(t)
  }

  /** Which old item ends up at index `k`; none for the edit's own value. */
  function Origin(i: nat, e: Edit<nat>, k: nat): Option<nat> {
    match e
    case Insert(_) => if k < i then Some(k) else if k == i then None else Some(k - 1)
    case Replace(_) => if k == i then None else Some(k)
    case Remove => if k < i then Some(k) else Some(k + 1)
  }

  lemma SplicedAt(items: seq<Tree>, i: nat, e: Edit<nat>, k: nat)
    requires i <= |items| && (e.Remove? ==> i < |items|) && k < |Spliced(items, i, e)|
    ensures var o := Origin(i, e, k);
      if o.None? then !e.Remove? && Spliced(items, i, e)[k] == e.value
      else o.value < |items| && Spliced(items, i, e)[k] == items[o.value]
  {}

  lemma SplicedTree(items: seq<Tree>, i: nat, e: Edit<nat>)
    requires i <= |items| && (e.Remove? ==> i < |items|)
    requires Apart2(items) && EditRefs(e) !! RefsOfSeq(items)
    ensures Apart2(Spliced(items, i, e))
    ensures RefsOfSeq(Spliced(items, i, e)) <= RefsOfSeq(items) + EditRefs(e)
  {
    var s := Spliced(items, i, e);
    forall k | 0 <= k < |items| ensures Refs(items[k]) <= RefsOfSeq(items) {}
    forall k | 0 <= k < |s|
      ensures Refs(s[k]) <= RefsOfSeq(items) + EditRefs(e)
    {
      SplicedAt(items, i, e, k);
    }
    forall k, l | 0 <= k < l < |s|
      ensures Refs(s[k]) !! Refs(s[l])
    {
      SplicedAt(items, i, e, k);
      SplicedAt(items, i, e, l);
    }
  }

  lemma RewriteInHeap(h: Cells, t: Tree, segment: string, e: Edit<nat>)
    requires Matches(h, t) && Distinct(t) && Usable(h, t, e) && Rewrite(t, segment, e).Ok?
    ensures !t.Leaf?
    ensures var t' := Rewrite(t, segment, e).value;
      && Root(t') == Root(t) && !t'.Leaf?
      && Matches(h[t.tag := CellOf(t')], t') && Distinct(t') && Refs(t') <= Refs(t) + EditRefs(e)
  {
    var t' := Rewrite(t, segment, e).value;
    var h' := h[t.tag := CellOf(t')];
    match t
    case Arr(r, items) =>
      var i := Slot(items, segment, e).value;
      SplicedTree(items, i, e);
      forall k | 0 <= k < |t'.items|
        ensures Matches(h', t'.items[k]) && Distinct(t'.items[k])
      {
        SplicedAt(items, i, e, k);
        var o := Origin(i, e, k);
        if o.Some? { assert Refs(items[o.value]) <= RefsOfSeq(items); }
        Frame(h, h', t'.items[k]);
      }
    case Obj(r, fields) =>
      forall k | k in t'.fields
        ensures Matches(h', t'.fields[k])
      {
        if k in fields { assert Refs(fields[k]) <= Refs(t); }
        Frame(h, h', t'.fields[k]);
      }
  }

  lemma SetChildInHeap(h: Cells, t: Tree, segment: string, c': Tree, more: set<nat>)
    requires Child(t, segment).Ok? && Distinct(t) && more !! Refs(t)
    requires Root(c') == Root(Child(t, segment).value)
    requires Distinct(c') && Refs(c') <= Refs(Child(t, segment).value) + more
    ensures var t' := SetChild(t, segment, c');
      Root(t') == Root(t) && CellOf(t') == CellOf(t) && Distinct(t') && Refs(t') <= Refs(t) + more
  {
    match t
    case Arr(r, items) => ReplacedItem(r, items, ToIndex(segment).value, c', more);
    case Obj(r, fields) =>
      assert CellOf(SetChild(t, segment, c')).fields == CellOf(t).fields;
      ReplacedField(r, fields, segment, c', more);
  }

  lemma ReplacedField(r: nat, fields: map<string, Tree>, key: string, c': Tree, more: set<nat>)
    requires key in fields && Distinct(Obj(r, fields)) && more !! Refs(Obj(r, fields))
    requires Distinct(c') && Refs(c') <= Refs(fields[key]) + more
    ensures Distinct(Obj(r, fields[key := c'])) && Refs(Obj(r, fields[key := c'])) <= Refs(Obj(r, fields)) + more
  {
    forall k | k in fields ensures Refs(fields[k]) <= Refs(Obj(r, fields)) {}
  }

  lemma ReplacedItem(r: nat, items: seq<Tree>, i: nat, c': Tree, more: set<nat>)
    requires i < |items| && Distinct(Arr(r, items)) && more !! Refs(Arr(r, items))
    requires Root(c') == Root(items[i]) && Distinct(c') && Refs(c') <= Refs(items[i]) + more
    ensures var t' := Arr(r, items[i := c']);
      CellOf(t') == CellOf(Arr(r, items)) && Distinct(t') && Refs(t') <= Refs(Arr(r, items)) + more
  {
    var items' := items[i := c'];
    assert CellOf(Arr(r, items')).items == CellOf(Arr(r, items)).items;
    forall k | 0 <= k < |items| ensures Refs(items[k]) <= RefsOfSeq(items) {}
    forall k | 0 <= k < |items| ensures Refs(items'[k]) <= RefsOfSeq(items) + more {}
    forall k, l | 0 <= k < l < |items'|
      ensures Refs(items'[k]) !! Refs(items'[l])
    {
      assert Refs(items[k]) !! Refs(items[l]);
    }
  }

  /** The container whose slot the last segment names. */
  ghost function Parent(t: Tree, p: seq<string>): Result<Tree, Fault>
    requires p != []
  {
    Get(t, p[..|p| - 1])
  }

  /** Overwriting the one cell of the parent container performs the edit at the whole path. */
  lemma {:induction false} WriteIsUpdate(h: Cells, t: Tree, p: seq<string>, e: Edit<nat>, h': Cells)
    requires p != [] && Matches(h, t) && Distinct(t) && Usable(h, t, e)
    requires Parent(t, p).Ok? && Rewrite(Parent(t, p).value, p[|p| - 1], e).Ok?
    requires !Parent(t, p).value.Leaf?
    requires !Rewrite(Parent(t, p).value, p[|p| - 1], e).value.Leaf?
    requires h' == h[Parent(t, p).value.tag := CellOf(Rewrite(Parent(t, p).value, p[|p| - 1], e).value)]
    ensures Update(t, p, e).Ok?
    ensures var t' := Update(t, p, e).value;
      Root(t') == Root(t) && Matches(h', t') && Distinct(t') && Refs(t') <= Refs(t) + EditRefs(e)
    ensures Parent(t, p).value.tag in Refs(t)
    decreases |p|
  {
    hide Matches, Distinct, Refs, RefsOfSeq;
    if |p| == 1 {
      assert p[..0] == [];
      RewriteInHeap(h, t, p[0], e);
      OwnTag(t);
    } else {
      var c := Child(t, p[0]).value;
      assert p[..|p| - 1][1..] == p[1..][..|p| - 2];
      assert p[1..][|p| - 2] == p[|p| - 1];
      ChildRefs(t, p[0]);
      ChildMatches(h, t, p[0]);
      WriteIsUpdate(h, c, p[1..], e, h');
      var c' := Update(c, p[1..], e).value;
      SetChildInHeap(h, t, p[0], c', EditRefs(e));
      SiblingsMatch(h, h', t, p[0], c', Parent(t, p).value.tag);
    }
  }

  lemma SiblingsMatch(h: Cells, h': Cells, t: Tree, segment: string, c': Tree, written: nat)
    requires Child(t, segment).Ok? && Matches(h, t) && Distinct(t) && Matches(h', c')
    requires CellOf(SetChild(t, segment, c')) == CellOf(t)
    requires written in Refs(Child(t, segment).value)
    requires forall r :: r in h && r != written ==> r in h' && h'[r] == h[r]
    ensures Matches(h', SetChild(t, segment, c'))
  {
    match t
    case Arr(r, items) => OtherItemsMatch(h, h', items, ToIndex(segment).value, written);
    case Obj(r, fields) =>
      forall k | k in fields && k != segment
        ensures Matches(h', fields[k])
      {
        Frame(h, h', fields[k]);
      }
  }

  lemma OtherItemsMatch(h: Cells, h': Cells, items: seq<Tree>, i: nat, written: nat)
    requires i < |items| && Apart2(items) && written in Refs(items[i])
    requires forall k :: 0 <= k < |items| ==> Matches(h, items[k])
    requires forall r :: r in h && r != written ==> r in h' && h'[r] == h[r]
    ensures forall k :: 0 <= k < |items| && k != i ==> Matches(h', items[k])
  {
    forall k | 0 <= k < |items| && k != i
      ensures Matches(h', items[k])
    {
      var a, b := if k < i then k else i, if k < i then i else k;
      assert Refs(items[a]) !! Refs(items[b]);
      Frame(h, h', items[k]);
    }
  }

  /** Failing at the parent or at its slot is failing at the path, and with the same fault. */
  lemma {:induction false} UpdateFaults(t: Tree, p: seq<string>, e: Edit<nat>)
    requires p != []
    ensures Parent(t, p).Err? ==> Update(t, p, e) == Err(Parent(t, p).error)
    ensures Parent(t, p).Ok? && Rewrite(Parent(t, p).value, p[|p| - 1], e).Err?
        ==> Update(t, p, e) == Err(Rewrite(Parent(t, p).value, p[|p| - 1], e).error)
    decreases |p|
  {
    if |p| == 1 {
      assert p[..0] == [];
    } else {
      assert p[..|p| - 1][1..] == p[1..][..|p| - 2];
      assert p[1..][|p| - 2] == p[|p| - 1];
      var c := Child(t, p[0]);
      if c.Ok? { UpdateFaults(c.value, p[1..], e); }
    }
  }
}
