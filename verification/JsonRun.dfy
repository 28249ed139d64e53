// Copying, comparing and whole patches on any heap.
module JsonRun {
  import opened Results
  import opened Pointer
  import opened JsonTree
  import opened JsonPatch
  import opened JsonHeap
  import opened JsonGraph

  // ---- copies -----------------------------------------------------------------------------------

  ghost predicate Extends(h: Cells, h': Cells) {
    forall r :: r in h ==> r in h' && h'[r] == h[r]
  }

  function Image(m: map<nat, nat>, v: Val): Val {
    if v.Ref? && v.ref in m then Ref(m[v.ref]) else v
  }

  function CellImage(m: map<nat, nat>, cell: Cell): Cell {
    match cell
    case ArrCell(items) => ArrCell(seq(|items|, i requires 0 <= i < |items| => Image(m, items[i])))
    case ObjCell(fields) => ObjCell(map k | k in fields :: Image(m, fields[k]))
  }

  ghost predicate Injective(m: map<nat, nat>) {
    forall r, s :: r in m && s in m && m[r] == m[s] ==> r == s
  }

  /** `m` sends cells of `h` to new cells, the only ones that `h'` has more, and those outside `open`
      are copied: each to the cell with the images of what it has. */
  ghost predicate Copying(h: Cells, h': Cells, m: map<nat, nat>, open: set<nat>) {
    && Extends(h, h') && (forall r :: r in h' ==> r in h || r in m.Values)
    && m.Keys <= h.Keys && m.Values <= h'.Keys && m.Values !! h.Keys && Injective(m) && open <= m.Keys
    && forall r <- m.Keys - open :: CellWithin(h[r], m.Keys) && h'[m[r]] == CellImage(m, h[r])
  }

  /** `structuredClone`: all that `v` leads to is copied, each cell once, shared cells and cycles
      included. */
  ghost predicate IsCopy(h: Cells, h': Cells, m: map<nat, nat>, v: Val, w: Val) {
    Copying(h, h', m, {}) && Within(v, m.Keys) && w == Image(m, v)
  }

  ghost function ImageSet(m: map<nat, nat>, refs: set<nat>): set<nat> {
    set r | r in refs && r in m :: m[r]
  }

  function Renamed(t: Tree, m: map<nat, nat>): Tree {
    match t
    case Leaf(_) => t
    case Arr(r, items) =>
      Arr(if r in m then m[r] else r, seq(|items|, i requires 0 <= i < |items| => Renamed(items[i], m)))
    case Obj(r, fields) =>
      Obj(if r in m then m[r] else r, map k | k in fields :: Renamed(fields[k], m))
  }

  /** The copy of a tree is that tree in new cells. */
  lemma {:induction false} RenamedMatches(h: Cells, h': Cells, m: map<nat, nat>, t: Tree)
    requires Copying(h, h', m, {}) && Matches(h, t) && Within(Root(t), m.Keys)
    ensures Root(Renamed(t, m)) == Image(m, Root(t)) && Matches(h', Renamed(t, m)) && Erase(Renamed(t, m)) == Erase(t)
  {
    match t {
      case Leaf(_) =>
      case Arr(r, items) =>
        CopiedCell(h, h', m, r);
        var us := Renamed(t, m).items;
        forall i | 0 <= i < |items|
          ensures Root(us[i]) == Image(m, Root(items[i])) && Matches(h', us[i]) && Erase(us[i]) == Erase(items[i])
        {
          assert h[r].items[i] == Root(items[i]);
          RenamedMatches(h, h', m, items[i]);
        }
        hide Copying;
        assert CellOf(Renamed(t, m)).items == CellImage(m, h[r]).items;
        assert Erase(Renamed(t, m)).items == Erase(t).items;
      case Obj(r, fields) =>
        CopiedCell(h, h', m, r);
        var us := Renamed(t, m).fields;
        forall k | k in fields
          ensures Root(us[k]) == Image(m, Root(fields[k])) && Matches(h', us[k]) && Erase(us[k]) == Erase(fields[k])
        {
          assert h[r].fields[k] == Root(fields[k]);
          RenamedMatches(h, h', m, fields[k]);
        }
        hide Copying;
        assert CellOf(Renamed(t, m)).fields == CellImage(m, h[r]).fields;
        assert Erase(Renamed(t, m)).fields == Erase(t).fields;
    }
  }

  lemma CopiedCell(h: Cells, h': Cells, m: map<nat, nat>, r: nat)
    requires Copying(h, h', m, {}) && r in m
    ensures r in h && CellWithin(h[r], m.Keys) && m[r] in h' && h'[m[r]] == CellImage(m, h[r])
  {
    hide CellWithin, CellImage;
  }

  lemma {:induction false} RefsWithin(h: Cells, t: Tree, region: set<nat>)
    requires SelfContained(h, region) && Matches(h, t) && Within(Root(t), region)
    ensures Refs(t) <= region
  {
    match t
    case Leaf(_) =>
    case Arr(r, items) =>
      assert CellWithin(h[r], region);
      forall i | 0 <= i < |items| ensures Refs(items[i]) <= region {
        assert h[r].items[i] == Root(items[i]);
        RefsWithin(h, items[i], region);
      }
    case Obj(r, fields) =>
      assert CellWithin(h[r], region);
      forall k | k in fields ensures Refs(fields[k]) <= region {
        assert h[r].fields[k] == Root(fields[k]);
        RefsWithin(h, fields[k], region);
      }
  }

  lemma {:induction false} RenamedRefs(t: Tree, m: map<nat, nat>)
    requires Refs(t) <= m.Keys
    ensures Refs(Renamed(t, m)) == ImageSet(m, Refs(t))
  {
    match t
    case Leaf(_) =>
    case Arr(r, items) =>
      var us := Renamed(t, m).items;
      forall i | 0 <= i < |items| ensures Refs(us[i]) == ImageSet(m, Refs(items[i])) {
        RenamedRefs(items[i], m);
      }
      forall x | x in ImageSet(m, RefsOfSeq(items)) ensures x in RefsOfSeq(us) {
        var q :| q in RefsOfSeq(items) && m[q] == x;
        var i :| 0 <= i < |items| && q in Refs(items[i]);
        assert x in Refs(us[i]);
      }
      forall x | x in RefsOfSeq(us) ensures x in ImageSet(m, RefsOfSeq(items)) {
        var i :| 0 <= i < |us| && x in Refs(us[i]);
        assert x in ImageSet(m, Refs(items[i]));
      }
    case Obj(r, fields) =>
      var us := Renamed(t, m).fields;
      forall k | k in fields ensures Refs(us[k]) == ImageSet(m, Refs(fields[k])) {
        RenamedRefs(fields[k], m);
      }
      forall x | x in ImageSet(m, Refs(t)) ensures x in Refs(Renamed(t, m)) {
        var q :| q in Refs(t) && m[q] == x;
        if q != r {
          var k :| k in fields && q in Refs(fields[k]);
          assert x in Refs(us[k]);
        }
      }
      forall x | x in Refs(Renamed(t, m)) ensures x in ImageSet(m, Refs(t)) {
        if x != m[r] {
          var k :| k in us && x in Refs(us[k]);
          assert x in ImageSet(m, Refs(fields[k]));
        }
      }
  }

  lemma ImagesApart(m: map<nat, nat>, a: set<nat>, b: set<nat>)
    requires Injective(m) && a <= m.Keys && b <= m.Keys && a !! b
    ensures ImageSet(m, a) !! ImageSet(m, b)
  {}

  lemma {:induction false} RenamedDistinct(t: Tree, m: map<nat, nat>)
    requires Injective(m) && Refs(t) <= m.Keys && Distinct(t)
    ensures Distinct(Renamed(t, m))
  {
    match t
    case Leaf(_) =>
    case Arr(r, items) =>
      var us := Renamed(t, m).items;
      RenamedRefs(t, m);
      forall i | 0 <= i < |items| ensures Distinct(us[i]) && Refs(us[i]) == ImageSet(m, Refs(items[i])) && m[r] !in Refs(us[i]) {
        RenamedRefs(items[i], m);
        RenamedDistinct(items[i], m);
      }
      forall i, j | 0 <= i < j < |us| ensures Refs(us[i]) !! Refs(us[j]) {
        ImagesApart(m, Refs(items[i]), Refs(items[j]));
      }
    case Obj(r, fields) =>
      var us := Renamed(t, m).fields;
      forall k | k in fields ensures Distinct(us[k]) && Refs(us[k]) == ImageSet(m, Refs(fields[k])) && m[r] !in Refs(us[k]) {
        RenamedRefs(fields[k], m);
        RenamedDistinct(fields[k], m);
      }
      forall k, l | k in fields && l in fields && k != l ensures Refs(us[k]) !! Refs(us[l]) {
        ImagesApart(m, Refs(fields[k]), Refs(fields[l]));
      }
  }

  /** A copy of a tree without shared cells is one, in new cells. */
  lemma CopyIsTree(h: Cells, h': Cells, m: map<nat, nat>, v: Val, w: Val, t: Tree)
    requires IsCopy(h, h', m, v, w) && Is(h, v, t)
    ensures var u := Renamed(t, m); Is(h', w, u) && Erase(u) == Erase(t) && Refs(u) <= m.Values
  {
    hide Matches, Distinct, Refs, Erase, CellWithin, Renamed;
    RenamedMatches(h, h', m, t);
    assert SelfContained(h, m.Keys);
    RefsWithin(h, t, m.Keys);
    RenamedRefs(t, m);
    RenamedDistinct(t, m);
  }

  /** And whatever a value reads as, its copy reads as too. */
  lemma {:induction false} CopyDenotes(h: Cells, h': Cells, m: map<nat, nat>, v: Val, j: Json)
    requires Copying(h, h', m, {}) && Within(v, m.Keys) && Denotes(h, v, j)
    ensures Denotes(h', Image(m, v), j)
    decreases j
  {
    match j
    case Leaf(_) =>
    case Arr(_, items) =>
      assert CellWithin(h[v.ref], m.Keys);
      forall i | 0 <= i < |items| ensures Denotes(h', h'[m[v.ref]].items[i], items[i]) {
        CopyDenotes(h, h', m, h[v.ref].items[i], items[i]);
      }
    case Obj(_, fields) =>
      assert CellWithin(h[v.ref], m.Keys);
      forall k | k in fields ensures Denotes(h', h'[m[v.ref]].fields[k], fields[k]) {
        CopyDenotes(h, h', m, h[v.ref].fields[k], fields[k]);
      }
  }

  // ---- comparing ---------------------------------------------------------------------------------

  /** Alike down to depth `n`. */
  ghost predicate Same(h: Cells, a: Val, b: Val, n: nat)
    decreases n
  {
    || n == 0
    || a == b
    || (&& a.Ref? && b.Ref? && a.ref in h && b.ref in h
        && match (h[a.ref], h[b.ref])
           case (ArrCell(xs), ArrCell(ys)) => |xs| == |ys| && forall i :: 0 <= i < |xs| ==> Same(h, xs[i], ys[i], n - 1)
           case (ObjCell(f), ObjCell(g)) => f.Keys == g.Keys && forall k :: k in f ==> Same(h, f[k], g[k], n - 1)
           case _ => false)
  }

  /** Containers nest `n` deep in it, and more. */
  ghost predicate Tall(h: Cells, v: Val, n: nat)
    decreases n
  {
    || n == 0
    || (&& v.Ref? && v.ref in h
        && match h[v.ref]
           case ArrCell(items) => exists x <- items :: Tall(h, x, n - 1)
           case ObjCell(fields) => exists k :: k in fields && Tall(h, fields[k], n - 1))
  }

  /** What `deepEqual` may come to with `stack` calls inside one another: an answer, or none when both
      values nest that deep, as cyclic ones always do. */
  ghost predicate Compared(h: Cells, a: Val, b: Val, stack: nat, r: Option<bool>) {
    match r
    case Some(true) => forall n :: Same(h, a, b, n)
    case Some(false) => !Same(h, a, b, stack)
    case None => Tall(h, a, stack) && Tall(h, b, stack)
  }

  ghost predicate Nests(j: Json, n: nat)
    decreases j
  {
    || n == 0
    || match j
       case Leaf(_) => false
       case Arr(_, items) => exists x <- items :: Nests(x, n - 1)
       case Obj(_, fields) => exists k :: k in fields && Nests(fields[k], n - 1)
  }

  lemma {:induction false} TallNests(h: Cells, v: Val, j: Json, n: nat)
    requires Denotes(h, v, j) && Tall(h, v, n)
    ensures Nests(j, n)
    decreases j
  {
    if n > 0 {
      match j
      case Leaf(_) =>
      case Arr(_, items) =>
        var i :| 0 <= i < |items| && Tall(h, h[v.ref].items[i], n - 1);
        TallNests(h, h[v.ref].items[i], items[i], n - 1);
        assert items[i] in items;
      case Obj(_, fields) =>
        var k :| k in fields && Tall(h, h[v.ref].fields[k], n - 1);
        TallNests(h, h[v.ref].fields[k], fields[k], n - 1);
    }
  }

  /** A value reads as one JSON value at most. */
  lemma {:induction false} OneReading(h: Cells, v: Val, j: Json, k: Json)
    requires Denotes(h, v, j) && Denotes(h, v, k)
    ensures j == k
    decreases j
  {
    match j
    case Leaf(_) =>
    case Arr(_, items) =>
      forall i | 0 <= i < |items| ensures items[i] == k.items[i] { OneReading(h, h[v.ref].items[i], items[i], k.items[i]); }
      assert items == k.items && j.tag == k.tag;
    case Obj(_, fields) =>
      forall x | x in fields ensures fields[x] == k.fields[x] { OneReading(h, h[v.ref].fields[x], fields[x], k.fields[x]); }
      assert fields == k.fields && j.tag == k.tag;
  }

  lemma {:induction false} EqualIsSame(h: Cells, a: Val, b: Val, j: Json, n: nat)
    requires Denotes(h, a, j) && Denotes(h, b, j)
    ensures Same(h, a, b, n)
    decreases j
  {
    if n > 0 {
      match j
      case Leaf(_) =>
      case Arr(_, items) =>
        forall i | 0 <= i < |items| ensures Same(h, h[a.ref].items[i], h[b.ref].items[i], n - 1) {
          EqualIsSame(h, h[a.ref].items[i], h[b.ref].items[i], items[i], n - 1);
        }
      case Obj(_, fields) =>
        forall k | k in fields ensures Same(h, h[a.ref].fields[k], h[b.ref].fields[k], n - 1) {
          EqualIsSame(h, h[a.ref].fields[k], h[b.ref].fields[k], fields[k], n - 1);
        }
    }
  }

  lemma {:induction false} SameIsEqual(h: Cells, a: Val, b: Val, j: Json, k: Json)
    requires Denotes(h, a, j) && Denotes(h, b, k) && forall n :: Same(h, a, b, n)
    ensures j == k
    decreases j
  {
    assert Same(h, a, b, 1);
    if a == b {
      OneReading(h, a, j, k);
    } else {
      match j
      case Leaf(_) =>
      case Arr(_, items) =>
        forall i | 0 <= i < |items| ensures items[i] == k.items[i] {
          forall n: nat ensures Same(h, h[a.ref].items[i], h[b.ref].items[i], n) { assert Same(h, a, b, n + 1); }
          SameIsEqual(h, h[a.ref].items[i], h[b.ref].items[i], items[i], k.items[i]);
        }
        assert items == k.items && j.tag == k.tag;
      case Obj(_, fields) =>
        forall x | x in fields ensures fields[x] == k.fields[x] {
          forall n: nat ensures Same(h, h[a.ref].fields[x], h[b.ref].fields[x], n) { assert Same(h, a, b, n + 1); }
          SameIsEqual(h, h[a.ref].fields[x], h[b.ref].fields[x], fields[x], k.fields[x]);
        }
        assert fields == k.fields && j.tag == k.tag;
    }
  }

  /** On values that read as JSON, shared containers or not, the answer is whether they are equal, and
      there is one unless both nest as deep as calls may. */
  lemma ComparesJson(h: Cells, a: Val, b: Val, j: Json, k: Json, stack: nat, r: Option<bool>)
    requires Denotes(h, a, j) && Denotes(h, b, k) && Compared(h, a, b, stack, r)
    ensures r.Some? ==> r.value == (j == k)
    ensures r.None? ==> Nests(j, stack) && Nests(k, stack)
  {
    if r.None? {
      TallNests(h, a, j, stack);
      TallNests(h, b, k, stack);
    } else if r.value {
      SameIsEqual(h, a, b, j, k);
    } else if j == k {
      EqualIsSame(h, a, b, j, stack);
    }
  }

  // ---- whole patches -------------------------------------------------------------------------------

  predicate HasValue<V>(op: Op<V>) { op.Add? || op.Put? || op.Test? }

  function Verdict(r: Option<bool>, path: string): Option<PatchError> {
    match r
    case Some(equal) => if equal then None else Some(PatchError(TestFailed, path))
    case None => Some(PatchError(StackExhausted, path))
  }

  /** What one operation may come to, on any heap: the new cells of a copy may be any, and a
      comparison may run out of stack. */
  ghost predicate StepTo(h: Cells, doc: Val, op: Op<Val>, stack: nat, a: After) {
    match op
    case Test(path, value) =>
      a.cells == h
      && (match ReadIn(h, doc, path)
          case Err(e) => a.error == Some(e)
          case Ok(found) => exists r :: Compared(h, found, value, stack, r) && a.error == Verdict(r, path))
    case Copy(_, path) =>
      (match ReadIn(h, doc, op.Source())
       case Err(e) => a == After(h, Some(e))
       case Ok(value) => exists h', m, w :: IsCopy(h, h', m, value, w) && a == InsertIn(h', doc, path, w, false))
    case _ => a == EditIn(h, doc, op)
  }

  /** What a list of operations on a draft may come to. */
  ghost predicate RunTo(h: Cells, doc: Val, ops: seq<Op<Val>>, stack: nat, a: After)
    decreases |ops|
  {
    if ops == [] then a == After(h, None)
    else if ops[0].path == "" && !ops[0].Test? then a == After(h, Some(PatchError(WholeDocument, "")))
    else exists next ::
      && StepTo(h, doc, ops[0], stack, next)
      && if next.error.Some? then a == next else RunTo(next.cells, doc, ops[1..], stack, a)
  }

  /** Edits alone have one outcome. */
  lemma {:induction false} EditsRunTo(h: Cells, doc: Val, ops: seq<Op<Val>>, stack: nat, a: After)
    requires forall op <- ops :: Edits(op)
    ensures RunTo(h, doc, ops, stack, a) <==> a == RunIn(h, doc, ops)
    decreases |ops|
  {
    hide EditIn;
    if ops != [] {
      assert forall op <- ops[1..] :: op in ops;
      assert Edits(ops[0]);
      var next := EditIn(h, doc, ops[0]);
      assert forall x :: StepTo(h, doc, ops[0], stack, x) <==> x == next;
      EditsRunTo(next.cells, doc, ops[1..], stack, a);
    }
  }

  // ---- what a patch can reach -------------------------------------------------------------------------

  /** The region has grown by new cells only, and nothing old outside it has changed. */
  ghost predicate Grown(h: Cells, h': Cells, region: set<nat>, region': set<nat>) {
    && region <= region' && (region' - region) !! h.Keys && SelfContained(h', region') && h.Keys <= h'.Keys
    && forall r :: r in h && r !in region ==> h'[r] == h[r]
  }

  lemma CopyGrows(h: Cells, h': Cells, m: map<nat, nat>, v: Val, w: Val, region: set<nat>)
    requires IsCopy(h, h', m, v, w) && SelfContained(h, region)
    ensures Grown(h, h', region, region + m.Values) && Within(w, m.Values)
  {
    forall r | r in m.Values ensures CellWithin(h'[r], m.Values) {
      var q :| q in m && m[q] == r;
      assert q in m.Keys - {};
      ImageWithin(m, h[q]);
    }
    forall r | r in region + m.Values ensures CellWithin(h'[r], region + m.Values) {
      if r in region { assert CellWithin(h[r], region); } else { assert CellWithin(h'[r], m.Values); }
    }
  }

  lemma ImageWithin(m: map<nat, nat>, cell: Cell)
    requires CellWithin(cell, m.Keys)
    ensures CellWithin(CellImage(m, cell), m.Values)
  {
    if cell.ArrCell? {
      forall i | 0 <= i < |cell.items| ensures Within(Image(m, cell.items[i]), m.Values) {
        assert cell.items[i] in cell.items;
      }
    }
  }

  lemma GrowsOn(h: Cells, h1: Cells, h2: Cells, a: set<nat>, b: set<nat>, c: set<nat>)
    requires Grown(h, h1, a, b) && Grown(h1, h2, b, c)
    ensures Grown(h, h2, a, c)
  {}

  lemma KeptIsGrown(h: Cells, h': Cells, region: set<nat>)
    requires KeepsWithin(h, h', region)
    ensures Grown(h, h', region, region)
  {}

  lemma StepGrows(h: Cells, doc: Val, op: Op<Val>, stack: nat, a: After, region: set<nat>) returns (region': set<nat>)
    requires StepTo(h, doc, op, stack, a) && SelfContained(h, region) && Within(doc, region)
    requires op.Add? || op.Put? ==> Within(op.value, region)
    ensures Grown(h, a.cells, region, region')
  {
    hide SelfContained, Walk, InsertIn, EditIn, IsCopy, Compared;
    region' := region;
    match op {
      case Test(_, _) => NothingGrows(h, region);
      case Copy(_, path) =>
        var value := ReadIn(h, doc, op.Source());
        if value.Ok? {
          var h', m, w :| IsCopy(h, h', m, value.value, w) && a == InsertIn(h', doc, path, w, false);
          region' := region + m.Values;
          CopyGrows(h, h', m, value.value, w, region);
          InsertStaysWithin(h', doc, path, w, false, region');
          KeptIsGrown(h', a.cells, region');
          GrowsOn(h, h', a.cells, region, region', region');
        } else {
          NothingGrows(h, region);
        }
      case _ =>
        EditStaysWithin(h, doc, op, region);
        KeptIsGrown(h, a.cells, region);
    }
  }

  lemma NothingGrows(h: Cells, region: set<nat>)
    requires SelfContained(h, region)
    ensures Grown(h, h, region, region)
  {}

  lemma {:induction false} RunGrows(h: Cells, doc: Val, ops: seq<Op<Val>>, stack: nat, a: After, region: set<nat>)
    returns (region': set<nat>)
    requires RunTo(h, doc, ops, stack, a) && SelfContained(h, region) && Within(doc, region)
    requires forall op <- ops :: op.Add? || op.Put? ==> Within(op.value, region)
    ensures Grown(h, a.cells, region, region')
    decreases |ops|
  {
    hide StepTo, SelfContained;
    region' := region;
    NothingGrows(h, region);
    if ops != [] && !(ops[0].path == "" && !ops[0].Test?) {
      var next :| StepTo(h, doc, ops[0], stack, next)
        && if next.error.Some? then a == next else RunTo(next.cells, doc, ops[1..], stack, a);
      region' := StepGrows(h, doc, ops[0], stack, next, region);
      if next.error.None? {
        var mid := region';
        assert forall op <- ops[1..] :: op in ops;
        GrownIsContained(h, next.cells, region, mid);
        region' := RunGrows(next.cells, doc, ops[1..], stack, a, mid);
        GrowsOn(h, next.cells, a.cells, region, mid, region');
      }
    }
  }

  lemma GrownIsContained(h: Cells, h': Cells, region: set<nat>, region': set<nat>)
    requires Grown(h, h', region, region')
    ensures SelfContained(h', region')
  {}

  /** Whatever the document, the values and the operations: if the values lie in a region, no cell
      outside it is touched that was there before. */
  lemma PatchStaysWithin(h: Cells, copied: Cells, m: map<nat, nat>, doc: Val, root: Val, ops: seq<Op<Val>>, stack: nat, a: After,
                         region: set<nat>)
    requires IsCopy(h, copied, m, doc, root) && RunTo(copied, root, ops, stack, a) && SelfContained(h, region)
    requires forall op <- ops :: op.Add? || op.Put? ==> Within(op.value, region)
    ensures forall r :: r in h && r !in region ==> r in a.cells && a.cells[r] == h[r]
  {
    hide RunTo, IsCopy, SelfContained;
    CopyGrows(h, copied, m, doc, root, region);
    GrownIsContained(h, copied, region, region + m.Values);
    var region' := RunGrows(copied, root, ops, stack, a, region + m.Values);
    GrowsOn(h, copied, a.cells, region, region + m.Values, region');
  }

  lemma {:induction false} DenotesFrame(h: Cells, h': Cells, v: Val, j: Json, own: set<nat>)
    requires Denotes(h, v, j) && SelfContained(h, own) && Within(v, own)
    requires forall r <- own :: r in h' && h'[r] == h[r]
    ensures Denotes(h', v, j)
    decreases j
  {
    match j
    case Leaf(_) =>
    case Arr(_, items) =>
      assert CellWithin(h[v.ref], own);
      forall i | 0 <= i < |items| ensures Denotes(h', h'[v.ref].items[i], items[i]) {
        DenotesFrame(h, h', h[v.ref].items[i], items[i], own);
      }
    case Obj(_, fields) =>
      assert CellWithin(h[v.ref], own);
      forall k | k in fields ensures Denotes(h', h'[v.ref].fields[k], fields[k]) {
        DenotesFrame(h, h', h[v.ref].fields[k], fields[k], own);
      }
  }

  /** So the caller's document reads as before if no value shares a cell with it, whatever the values
      share with one another. */
  lemma CallersDocumentStays(h: Cells, copied: Cells, m: map<nat, nat>, doc: Val, root: Val, ops: seq<Op<Val>>, stack: nat,
                             a: After, own: set<nat>, region: set<nat>, j: Json)
    requires IsCopy(h, copied, m, doc, root) && RunTo(copied, root, ops, stack, a)
    requires SelfContained(h, own) && Within(doc, own) && Denotes(h, doc, j)
    requires SelfContained(h, region) && own !! region
    requires forall op <- ops :: op.Add? || op.Put? ==> Within(op.value, region)
    ensures Denotes(a.cells, doc, j)
  {
    hide RunTo, IsCopy;
    PatchStaysWithin(h, copied, m, doc, root, ops, stack, a, region);
    DenotesFrame(h, a.cells, doc, j, own);
  }

  // ---- what a patch writes, however its values share ---------------------------------------------------

  /** The container that an edit at `path` writes. */
  ghost predicate IsParent(h: Cells, doc: Val, path: string, r: nat) {
    ParentIn(h, doc, path) == Ok(Ref(r)) && r in h
  }

  /** Cell `r` is the parent container of an insert or a removal that this operation carried out. */
  ghost predicate StepEdits(h: Cells, doc: Val, op: Op<Val>, a: After, r: nat) {
    match op
    case Test(_, _) => false
    case Copy(_, path) =>
      && a.error == None && ReadIn(h, doc, op.Source()).Ok?
      && exists h', m, w :: IsCopy(h, h', m, ReadIn(h, doc, op.Source()).value, w)
                            && a == InsertIn(h', doc, path, w, false) && IsParent(h', doc, path, r)
    case Move(_, path) =>
      var without := RemoveIn(h, doc, op.Source());
      && !IsInside(op.Source(), path) && ReadIn(h, doc, op.Source()).Ok? && without.error == None
      && (IsParent(h, doc, op.Source(), r) || (a.error == None && IsParent(without.cells, doc, path, r)))
    case _ => a.error == None && IsParent(h, doc, op.path, r)
  }

  /** So did some operation of the run. */
  ghost predicate RunEdits(h: Cells, doc: Val, ops: seq<Op<Val>>, stack: nat, a: After, r: nat)
    decreases |ops|
  {
    ops != [] && exists next ::
      && StepTo(h, doc, ops[0], stack, next)
      && (if next.error.Some? then a == next else RunTo(next.cells, doc, ops[1..], stack, a))
      && (StepEdits(h, doc, ops[0], next, r) || (next.error.None? && RunEdits(next.cells, doc, ops[1..], stack, a, r)))
  }

  ghost predicate Kept(h: Cells, h': Cells, r: nat) {
    r in h ==> r in h' && h'[r] == h[r]
  }

  lemma WritesParent(h: Cells, doc: Val, path: string, value: Val, replace: bool, r: nat)
    ensures var a := InsertIn(h, doc, path, value, replace);
      h.Keys <= a.cells.Keys && (Kept(h, a.cells, r) || (a.error == None && IsParent(h, doc, path, r)))
    ensures var a := RemoveIn(h, doc, path);
      h.Keys <= a.cells.Keys && (Kept(h, a.cells, r) || (a.error == None && IsParent(h, doc, path, r)))
  {
    hide Walk, InsertInto, RemoveFrom, EditPath;
  }

  lemma StepWrites(h: Cells, doc: Val, op: Op<Val>, stack: nat, a: After, r: nat)
    requires StepTo(h, doc, op, stack, a) && r in h
    ensures r in a.cells && (Kept(h, a.cells, r) || StepEdits(h, doc, op, a, r))
  {
    hide InsertIn, RemoveIn, ReadIn, IsParent, IsInside, Compared, Copying;
    match op {
      case Test(_, _) =>
      case Copy(_, path) =>
        var value := ReadIn(h, doc, op.Source());
        if value.Ok? {
          var h', m, w :| IsCopy(h, h', m, value.value, w) && a == InsertIn(h', doc, path, w, false);
          CopyKeeps(h, h', m, value.value, w, r);
          WritesParent(h', doc, path, w, false, r);
        }
      case Add(path, value) => WritesParent(h, doc, path, value, false, r);
      case Put(path, value) => WritesParent(h, doc, path, value, true, r);
      case Delete(path) => WritesParent(h, doc, path, Prim(Null), false, r);
      case Move(_, path) =>
        WritesParent(h, doc, op.Source(), Prim(Null), false, r);
        var value := ReadIn(h, doc, op.Source());
        if value.Ok? { WritesParent(RemoveIn(h, doc, op.Source()).cells, doc, path, value.value, false, r); }
    }
  }

  lemma CopyKeeps(h: Cells, h': Cells, m: map<nat, nat>, v: Val, w: Val, r: nat)
    requires IsCopy(h, h', m, v, w)
    ensures Kept(h, h', r) && h.Keys <= h'.Keys
  {}

  /** For every run: a cell that was there before has changed only if some operation carried out an
      edit of which it is the parent container. */
  lemma {:induction false} OnlyParentsChange(h: Cells, doc: Val, ops: seq<Op<Val>>, stack: nat, a: After, r: nat)
    requires RunTo(h, doc, ops, stack, a) && r in h
    ensures Kept(h, a.cells, r) || RunEdits(h, doc, ops, stack, a, r)
    decreases |ops|
  {
    hide StepTo, StepEdits;
    if ops != [] && !(ops[0].path == "" && !ops[0].Test?) {
      var next :| StepTo(h, doc, ops[0], stack, next)
        && if next.error.Some? then a == next else RunTo(next.cells, doc, ops[1..], stack, a);
      StepWrites(h, doc, ops[0], stack, next, r);
      if next.error.None? { OnlyParentsChange(next.cells, doc, ops[1..], stack, a, r); }
    }
  }

  /** So the caller's document reads as before unless one of its own containers is the parent of an
      edit that the patch carried out, whatever is shared. */
  lemma DocumentStaysUnlessEdited(h: Cells, copied: Cells, m: map<nat, nat>, doc: Val, root: Val, ops: seq<Op<Val>>, stack: nat,
                                  a: After, own: set<nat>, j: Json)
    requires IsCopy(h, copied, m, doc, root) && RunTo(copied, root, ops, stack, a)
    requires SelfContained(h, own) && Within(doc, own) && Denotes(h, doc, j)
    requires forall r <- own :: !RunEdits(copied, root, ops, stack, a, r)
    ensures Denotes(a.cells, doc, j)
  {
    hide RunTo, IsCopy, RunEdits;
    forall r | r in own ensures r in a.cells && a.cells[r] == h[r] {
      CopyKeeps(h, copied, m, doc, root, r);
      OnlyParentsChange(copied, root, ops, stack, a, r);
    }
    DenotesFrame(h, a.cells, doc, j, own);
  }
}
