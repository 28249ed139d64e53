// The edits of evals/corpus/json-patch/patch.ts on any heap, shared containers or not.
module JsonGraph {
  import opened Results
  import opened Pointer
  import opened JsonTree
  import opened JsonPatch
  import opened JsonHeap

  // ---- heaps without dangling references --------------------------------------------------------

  predicate InHeap(h: Cells, v: Val) {
    v.Ref? ==> v.ref in h
  }

  ghost predicate CellClosed(h: Cells, cell: Cell) {
    match cell
    case ArrCell(items) => forall v <- items :: InHeap(h, v)
    case ObjCell(fields) => forall k :: k in fields ==> InHeap(h, fields[k])
  }

  ghost predicate Closed(h: Cells) {
    forall r :: r in h ==> CellClosed(h, h[r])
  }

  // ---- the edits ----------------------------------------------------------------------------------

  /** A property read on one cell. */
  function ValChild(cell: Cell, segment: string): Result<Val, Fault> {
    match cell
    case ArrCell(items) =>
      var index := ToIndex(segment);
      if index.None? || index.value >= |items| then Err(NoSuchIndex(segment)) else Ok(items[index.value])
    case ObjCell(fields) =>
      if segment in fields then Ok(fields[segment]) else Err(NoSuchKey(segment))
  }

  /** Following a path from a value. */
  function Walk(h: Cells, v: Val, segments: seq<string>): Result<Val, Fault>
    decreases |segments|
  {
    if segments == [] then Ok(v)
    else if v.Prim? || v.ref !in h then Err(NoSuchKey(segments[0]))
    else
      var child :- ValChild(h[v.ref], segments[0]);
      Walk(h, child, segments[1..])
  }

  /** `parentOf`: all the way but the last segment. */
  function ParentIn(h: Cells, doc: Val, path: string): Result<Val, Fault> {
    var p := EditPath(path);
    Walk(h, doc, p[..|p| - 1])
  }

  function ReadIn(h: Cells, doc: Val, path: string): Result<Val, PatchError> {
    match Walk(h, doc, ParsePointer(path))
    case Ok(v) => Ok(v)
    case Err(f) => Err(PatchError(f, path))
  }

  /** `insertAt` at the parent container: what the cell becomes, or why not. */
  function InsertInto(cell: Cell, last: string, value: Val, replace: bool): Result<Cell, Fault> {
    match cell
    case ArrCell(items) =>
      if last == "-" then Ok(ArrCell(items + [value]))
      else
        var index := ToIndex(last);
        var limit := if replace then |items| - 1 else |items|;
        if index.None? || index.value > limit then Err(IndexOutOfRange(last))
        else Ok(ArrCell(items[..index.value] + [value] + items[index.value + if replace then 1 else 0..]))
    case ObjCell(fields) => Ok(ObjCell(fields[last := value]))
  }

  /** `removeAt` at the parent container. */
  function RemoveFrom(cell: Cell, last: string): Result<Cell, Fault> {
    match cell
    case ArrCell(items) =>
      var index := ToIndex(last);
      if index.None? || index.value >= |items| then Err(NoSuchIndex(last))
      else Ok(ArrCell(items[..index.value] + items[index.value + 1..]))
    case ObjCell(fields) =>
      if last in fields then Ok(ObjCell(fields - {last})) else Err(NoSuchKey(last))
  }

  /** What an edit leaves in the heap, and whether it failed. */
  datatype After = After(cells: Cells, error: Option<PatchError>)

  function Wrote(h: Cells, ref: nat, cell: Result<Cell, Fault>, path: string): After {
    match cell
    case Ok(c) => After(h[ref := c], None)
    case Err(f) => After(h, Some(PatchError(f, path)))
  }

  function InsertIn(h: Cells, doc: Val, path: string, value: Val, replace: bool): After {
    var p := EditPath(path);
    match ParentIn(h, doc, path)
    case Err(f) => After(h, Some(PatchError(f, path)))
    case Ok(parent) =>
      if parent.Prim? || parent.ref !in h then After(h, Some(PatchError(NotAContainer, path)))
      else Wrote(h, parent.ref, InsertInto(h[parent.ref], p[|p| - 1], value, replace), path)
  }

  function RemoveIn(h: Cells, doc: Val, path: string): After {
    var p := EditPath(path);
    match ParentIn(h, doc, path)
    case Err(f) => After(h, Some(PatchError(f, path)))
    case Ok(parent) =>
      if parent.Prim? || parent.ref !in h then After(h, Some(PatchError(NoSuchKey(p[|p| - 1]), path)))
      else Wrote(h, parent.ref, RemoveFrom(h[parent.ref], p[|p| - 1]), path)
  }

  /** `move` keeps no copy: the value goes back in as it is. */
  function MoveIn(h: Cells, doc: Val, from: string, path: string): After {
    if IsInside(from, path) then After(h, Some(PatchError(IntoItself, path)))
    else
      match ReadIn(h, doc, from)
      case Err(e) => After(h, Some(e))
      case Ok(value) =>
        var without := RemoveIn(h, doc, from);
        if without.error.Some? then without else InsertIn(without.cells, doc, path, value, false)
  }

  /** The operations that neither copy nor compare. */
  predicate Edits<V>(op: Op<V>) { op.Add? || op.Put? || op.Delete? || op.Move? }

  function EditIn(h: Cells, doc: Val, op: Op<Val>): After
    requires Edits(op)
  {
    match op
    case Add(path, value) => InsertIn(h, doc, path, value, false)
    case Put(path, value) =>
      var found := ReadIn(h, doc, path);
      if found.Err? then After(h, Some(found.error)) else InsertIn(h, doc, path, value, true)
    case Delete(path) => RemoveIn(h, doc, path)
    case Move(_, path) => MoveIn(h, doc, op.Source(), path)
  }

  /** A list of such operations on a draft. */
  function RunIn(h: Cells, doc: Val, ops: seq<Op<Val>>): After
    requires forall op <- ops :: Edits(op)
    decreases |ops|
  {
    if ops == [] then After(h, None)
    else if ops[0].path == "" then After(h, Some(PatchError(WholeDocument, "")))
    else
      var next := EditIn(h, doc, ops[0]);
      if next.error.Some? then next else RunIn(next.cells, doc, ops[1..])
  }

  // ---- no edit leaves a dangling reference ----------------------------------------------------------

  lemma ChildStaysInHeap(h: Cells, r: nat, segment: string)
    requires Closed(h) && r in h && ValChild(h[r], segment).Ok?
    ensures InHeap(h, ValChild(h[r], segment).value)
  {
    assert CellClosed(h, h[r]);
  }

  lemma {:induction false} WalkStaysInHeap(h: Cells, v: Val, segments: seq<string>)
    requires Closed(h) && InHeap(h, v)
    ensures Walk(h, v, segments).Ok? ==> InHeap(h, Walk(h, v, segments).value)
    decreases |segments|
  {
    if segments != [] && v.Ref? && ValChild(h[v.ref], segments[0]).Ok? {
      ChildStaysInHeap(h, v.ref, segments[0]);
      WalkStaysInHeap(h, ValChild(h[v.ref], segments[0]).value, segments[1..]);
    }
  }

  lemma WriteKeepsClosed(h: Cells, r: nat, cell: Cell)
    requires Closed(h) && r in h && CellClosed(h, cell)
    ensures Closed(h[r := cell])
  {
    var h' := h[r := cell];
    forall x | x in h' ensures CellClosed(h', h'[x]) {
      assert CellClosed(h, h'[x]);
    }
  }

  lemma EditedCellClosed(h: Cells, cell: Cell, last: string, value: Val, replace: bool)
    requires CellClosed(h, cell) && InHeap(h, value)
    ensures InsertInto(cell, last, value, replace).Ok? ==> CellClosed(h, InsertInto(cell, last, value, replace).value)
    ensures RemoveFrom(cell, last).Ok? ==> CellClosed(h, RemoveFrom(cell, last).value)
  {}

  lemma InsertKeepsClosed(h: Cells, doc: Val, path: string, value: Val, replace: bool)
    requires Closed(h) && InHeap(h, doc) && InHeap(h, value)
    ensures Closed(InsertIn(h, doc, path, value, replace).cells) && InsertIn(h, doc, path, value, replace).cells.Keys == h.Keys
  {
    hide Walk, InsertInto, Closed, CellClosed;
    var p := EditPath(path);
    var parent := ParentIn(h, doc, path);
    if parent.Ok? && parent.value.Ref? && parent.value.ref in h {
      var cell := h[parent.value.ref];
      CellIsClosed(h, parent.value.ref);
      EditedCellClosed(h, cell, p[|p| - 1], value, replace);
      var written := InsertInto(cell, p[|p| - 1], value, replace);
      if written.Ok? { WriteKeepsClosed(h, parent.value.ref, written.value); }
    }
  }

  lemma CellIsClosed(h: Cells, r: nat)
    requires Closed(h) && r in h
    ensures CellClosed(h, h[r])
  {}

  lemma RemoveKeepsClosed(h: Cells, doc: Val, path: string)
    requires Closed(h) && InHeap(h, doc)
    ensures Closed(RemoveIn(h, doc, path).cells) && RemoveIn(h, doc, path).cells.Keys == h.Keys
  {
    hide Walk, RemoveFrom, Closed, CellClosed;
    var p := EditPath(path);
    var parent := ParentIn(h, doc, path);
    if parent.Ok? && parent.value.Ref? && parent.value.ref in h {
      var cell := h[parent.value.ref];
      CellIsClosed(h, parent.value.ref);
      EditedCellClosed(h, cell, p[|p| - 1], Prim(Null), false);
      var written := RemoveFrom(cell, p[|p| - 1]);
      if written.Ok? { WriteKeepsClosed(h, parent.value.ref, written.value); }
    }
  }

  // ---- what an edit can reach ---------------------------------------------------------------------------

  predicate Within(v: Val, region: set<nat>) {
    v.Ref? ==> v.ref in region
  }

  ghost predicate CellWithin(cell: Cell, region: set<nat>) {
    match cell
    case ArrCell(items) => forall v <- items :: Within(v, region)
    case ObjCell(fields) => forall k :: k in fields ==> Within(fields[k], region)
  }

  /** No reference leads out of the region. */
  ghost predicate SelfContained(h: Cells, region: set<nat>) {
    region <= h.Keys && forall r <- region :: CellWithin(h[r], region)
  }

  /** Nothing outside the region has changed, and the region is as self-contained as it was. */
  ghost predicate KeepsWithin(h: Cells, h': Cells, region: set<nat>) {
    && SelfContained(h', region) && h'.Keys == h.Keys
    && forall r :: r in h && r !in region ==> h'[r] == h[r]
  }

  lemma {:induction false} WalkStaysWithin(h: Cells, v: Val, segments: seq<string>, region: set<nat>)
    requires SelfContained(h, region) && Within(v, region)
    ensures Walk(h, v, segments).Ok? ==> Within(Walk(h, v, segments).value, region)
    decreases |segments|
  {
    if segments != [] && v.Ref? && ValChild(h[v.ref], segments[0]).Ok? {
      assert CellWithin(h[v.ref], region);
      WalkStaysWithin(h, ValChild(h[v.ref], segments[0]).value, segments[1..], region);
    }
  }

  lemma WriteStaysWithin(h: Cells, r: nat, cell: Cell, region: set<nat>)
    requires SelfContained(h, region) && r in region && CellWithin(cell, region)
    ensures KeepsWithin(h, h[r := cell], region)
  {}

  lemma EditedCellWithin(cell: Cell, last: string, value: Val, replace: bool, region: set<nat>)
    requires CellWithin(cell, region) && Within(value, region)
    ensures InsertInto(cell, last, value, replace).Ok? ==> CellWithin(InsertInto(cell, last, value, replace).value, region)
    ensures RemoveFrom(cell, last).Ok? ==> CellWithin(RemoveFrom(cell, last).value, region)
  {}

  lemma InsertStaysWithin(h: Cells, doc: Val, path: string, value: Val, replace: bool, region: set<nat>)
    requires SelfContained(h, region) && Within(doc, region) && Within(value, region)
    ensures KeepsWithin(h, InsertIn(h, doc, path, value, replace).cells, region)
  {
    hide Walk, InsertInto, CellWithin, ParsePointer, Within;
    var p := EditPath(path);
    WalkStaysWithin(h, doc, p[..|p| - 1], region);
    var parent := ParentIn(h, doc, path);
    if parent.Ok? && parent.value.Ref? && parent.value.ref in h {
      var ref := parent.value.ref;
      EditedCellWithin(h[ref], p[|p| - 1], value, replace, region);
      var written := InsertInto(h[ref], p[|p| - 1], value, replace);
      if written.Ok? { WriteStaysWithin(h, ref, written.value, region); }
    }
  }

  lemma RemoveStaysWithin(h: Cells, doc: Val, path: string, region: set<nat>)
    requires SelfContained(h, region) && Within(doc, region)
    ensures KeepsWithin(h, RemoveIn(h, doc, path).cells, region)
  {
    hide Walk, RemoveFrom, CellWithin, ParsePointer;
    var p := EditPath(path);
    WalkStaysWithin(h, doc, p[..|p| - 1], region);
    var parent := ParentIn(h, doc, path);
    if parent.Ok? && parent.value.Ref? && parent.value.ref in h {
      var ref := parent.value.ref;
      EditedCellWithin(h[ref], p[|p| - 1], Prim(Null), false, region);
      var written := RemoveFrom(h[ref], p[|p| - 1]);
      if written.Ok? { WriteStaysWithin(h, ref, written.value, region); }
    }
  }

  lemma EditStaysWithin(h: Cells, doc: Val, op: Op<Val>, region: set<nat>)
    requires SelfContained(h, region) && Within(doc, region) && Edits(op) && (op.Add? || op.Put? ==> Within(op.value, region))
    ensures KeepsWithin(h, EditIn(h, doc, op).cells, region)
  {
    hide InsertIn, RemoveIn, SelfContained, Walk;
    match op {
      case Add(path, value) => InsertStaysWithin(h, doc, path, value, false, region);
      case Put(path, value) => InsertStaysWithin(h, doc, path, value, true, region);
      case Delete(path) => RemoveStaysWithin(h, doc, path, region);
      case Move(_, path) =>
        RemoveStaysWithin(h, doc, op.Source(), region);
        WalkStaysWithin(h, doc, ParsePointer(op.Source()), region);
        var value := ReadIn(h, doc, op.Source());
        if value.Ok? { InsertStaysWithin(RemoveIn(h, doc, op.Source()).cells, doc, path, value.value, false, region); }
    }
  }

  /** Edits of a draft and with values that lie in a region change nothing outside it, however the
      values share. */
  lemma {:induction false} RunStaysWithin(h: Cells, doc: Val, ops: seq<Op<Val>>, region: set<nat>)
    requires SelfContained(h, region) && Within(doc, region)
    requires forall op <- ops :: Edits(op) && (op.Add? || op.Put? ==> Within(op.value, region))
    ensures KeepsWithin(h, RunIn(h, doc, ops).cells, region)
    decreases |ops|
  {
    hide EditIn, CellWithin, Within;
    if ops != [] {
      EditStaysWithin(h, doc, ops[0], region);
      assert forall op <- ops[1..] :: op in ops;
      var next := EditIn(h, doc, ops[0]);
      if next.error.None? { RunStaysWithin(next.cells, doc, ops[1..], region); }
    }
  }

  lemma {:induction false} TreeIsContained(h: Cells, t: Tree)
    requires Matches(h, t)
    ensures SelfContained(h, Refs(t)) && Within(Root(t), Refs(t))
  {
    match t
    case Leaf(_) =>
    case Arr(r, items) =>
      forall i | 0 <= i < |items| ensures SelfContained(h, Refs(items[i])) && Within(Root(items[i]), Refs(items[i])) {
        TreeIsContained(h, items[i]);
      }
    case Obj(r, fields) =>
      forall k | k in fields ensures SelfContained(h, Refs(fields[k])) && Within(Root(fields[k]), Refs(fields[k])) {
        TreeIsContained(h, fields[k]);
      }
  }

  // ---- on a tree the edits are the fold's -------------------------------------------------------------

  /** Only cells of `t` have changed. */
  ghost predicate KeepsOutside(h: Cells, h': Cells, t: Tree) {
    h'.Keys == h.Keys && forall r :: r in h && r !in Refs(t) ==> h'[r] == h[r]
  }

  function RootOf(r: Result<Tree, Fault>): Result<Val, Fault> {
    match r
    case Ok(t) => Ok(Root(t))
    case Err(f) => Err(f)
  }

  lemma ChildInHeap(h: Cells, t: Tree, segment: string)
    requires Matches(h, t)
    ensures Child(t, segment).Ok? ==> Matches(h, Child(t, segment).value)
    ensures t.Leaf? ==> Child(t, segment) == Err(NoSuchKey(segment))
    ensures !t.Leaf? ==> t.tag in h && RootOf(Child(t, segment)) == ValChild(h[t.tag], segment)
  {}

  lemma {:induction false} WalkIsGet(h: Cells, t: Tree, p: seq<string>)
    requires Matches(h, t)
    ensures Walk(h, Root(t), p) == RootOf(Get(t, p))
    decreases |p|
  {
    hide Matches, ValChild;
    if p != [] {
      ChildInHeap(h, t, p[0]);
      var c := Child(t, p[0]);
      if c.Ok? { WalkIsGet(h, c.value, p[1..]); }
    }
  }

  lemma ReadIsGet(h: Cells, t: Tree, path: string)
    requires Matches(h, t)
    ensures ReadIn(h, Root(t), path) == match Get(t, ParsePointer(path)) case Ok(u) => Ok(Root(u)) case Err(f) => Err(PatchError(f, path))
  {
    WalkIsGet(h, t, ParsePointer(path));
  }

  ghost predicate SameOutcome(r: Result<Cell, Fault>, t: Result<Tree, Fault>) {
    match t
    case Ok(t') => !t'.Leaf? && r == Ok(CellOf(t'))
    case Err(f) => r == Err(f)
  }

  lemma InsertedRoots(r: nat, items: seq<Tree>, i: nat, v: Tree)
    requires i <= |items|
    ensures var vals := CellOf(Arr(r, items)).items;
      && CellOf(Arr(r, items[..i] + [v] + items[i..])).items == vals[..i] + [Root(v)] + vals[i..]
      && CellOf(Arr(r, items + [v])).items == vals + [Root(v)]
      && (i < |items| ==> CellOf(Arr(r, items[i := v])).items == vals[..i] + [Root(v)] + vals[i + 1..])
      && (i < |items| ==> CellOf(Arr(r, items[..i] + items[i + 1..])).items == vals[..i] + vals[i + 1..])
  {}

  lemma InsertIsRewrite(at: Tree, last: string, v: Tree, replace: bool)
    requires !at.Leaf?
    ensures SameOutcome(InsertInto(CellOf(at), last, Root(v), replace),
                        Rewrite(at, last, if replace then Replace(v) else Insert(v)))
  {
    match at
    case Arr(r, items) =>
      var slot := Slot(items, last, if replace then Replace(v) else Insert(v));
      if slot.Some? {
        InsertedRoots(r, items, slot.value, v);
        assert items[..|items|] + [v] + items[|items|..] == items + [v];
      }
    case Obj(r, fields) =>
      assert CellOf(Obj(r, fields[last := v])).fields == CellOf(at).fields[last := Root(v)];
  }

  lemma RemoveIsRewrite(at: Tree, last: string)
    requires !at.Leaf?
    ensures SameOutcome(RemoveFrom(CellOf(at), last), Rewrite(at, last, Remove))
  {
    match at
    case Arr(r, items) =>
      var slot := Slot(items, last, Remove);
      if slot.Some? { InsertedRoots(r, items, slot.value, at); }
    case Obj(r, fields) =>
      if last in fields {
        assert CellOf(Obj(r, fields - {last})).fields == CellOf(at).fields - {last};
      }
  }

  /** Everything a caller learns from the one cell write of an edit. */
  lemma WriteHolds(h: Cells, doc: Val, t: Tree, p: seq<string>, e: Edit<nat>, cell: Result<Cell, Fault>)
    requires p != [] && Root(t) == doc && Matches(h, t) && Distinct(t) && Usable(h, t, e)
    requires Parent(t, p).Ok? && !Parent(t, p).value.Leaf?
    requires SameOutcome(cell, Rewrite(Parent(t, p).value, p[|p| - 1], e))
    ensures cell.Err? ==> Update(t, p, e) == Err(cell.error)
    ensures cell.Ok? ==>
      && Update(t, p, e).Ok?
      && var h', t' := h[Parent(t, p).value.tag := cell.value], Update(t, p, e).value;
      && Root(t') == doc && Matches(h', t') && Distinct(t') && Refs(t') <= Refs(t) + EditRefs(e)
      && KeepsOutside(h, h', t)
  {
    if cell.Ok? {
      WriteIsUpdate(h, t, p, e, h[Parent(t, p).value.tag := cell.value]);
      GetParts(h, t, p[..|p| - 1]);
    } else {
      UpdateFaults(t, p, e);
    }
  }

  /** Root, cells and shape: the heap value `doc` is the tree `t`, with no cell shared in it. */
  ghost predicate Is(h: Cells, doc: Val, t: Tree) {
    Root(t) == doc && Matches(h, t) && Distinct(t)
  }

  /** An edit of the draft came to what the tree edit `r` came to. */
  ghost predicate Follows(h: Cells, doc: Val, t: Tree, path: string, e: Edit<nat>, a: After) {
    var r := Update(t, EditPath(path), e);
    if r.Err? then a == After(h, Some(PatchError(r.error, path)))
    else a.error == None && Is(a.cells, doc, r.value) && Refs(r.value) <= Refs(t) + EditRefs(e) && KeepsOutside(h, a.cells, t)
  }

  lemma InsertFollows(h: Cells, doc: Val, path: string, replace: bool, t: Tree, v: Tree)
    requires Is(h, doc, t) && Matches(h, v) && Distinct(v) && Refs(v) !! Refs(t)
    ensures Follows(h, doc, t, path, if replace then Replace(v) else Insert(v), InsertIn(h, doc, path, Root(v), replace))
  {
    hide Matches, Distinct, Refs, Get, Update, ParsePointer, Rewrite, InsertInto;
    var p, e := EditPath(path), if replace then Replace(v) else Insert(v);
    WalkIsGet(h, t, p[..|p| - 1]);
    UpdateFaults(t, p, e);
    if Parent(t, p).Ok? {
      var at := Parent(t, p).value;
      GetParts(h, t, p[..|p| - 1]);
      CellInHeap(h, at);
      LeafTakesNothing(at, p[|p| - 1], e);
      if !at.Leaf? {
        InsertIsRewrite(at, p[|p| - 1], v, replace);
        WriteHolds(h, doc, t, p, e, InsertInto(h[at.tag], p[|p| - 1], Root(v), replace));
      }
    }
  }

  lemma CellInHeap(h: Cells, t: Tree)
    requires Matches(h, t)
    ensures !t.Leaf? ==> Root(t) == Ref(t.tag) && t.tag in h && h[t.tag] == CellOf(t)
    ensures t.Leaf? ==> Root(t).Prim?
  {}

  lemma LeafTakesNothing(t: Tree, segment: string, e: Edit<nat>)
    ensures t.Leaf? ==> Rewrite(t, segment, e) == Err(if e.Remove? then NoSuchKey(segment) else NotAContainer)
  {}

  lemma RemoveFollows(h: Cells, doc: Val, path: string, t: Tree)
    requires Is(h, doc, t)
    ensures Follows(h, doc, t, path, Remove, RemoveIn(h, doc, path))
    // one cell only is written
    ensures RemoveIn(h, doc, path).error == None ==>
      var parent := Parent(t, EditPath(path));
      parent.Ok? && !parent.value.Leaf? && forall r :: r in h && r != parent.value.tag ==> RemoveIn(h, doc, path).cells[r] == h[r]
  {
    hide Matches, Distinct, Refs, Get, Update, ParsePointer, Rewrite, RemoveFrom;
    var p := EditPath(path);
    WalkIsGet(h, t, p[..|p| - 1]);
    UpdateFaults(t, p, Remove);
    if Parent(t, p).Ok? {
      var at := Parent(t, p).value;
      GetParts(h, t, p[..|p| - 1]);
      CellInHeap(h, at);
      LeafTakesNothing(at, p[|p| - 1], Remove);
      if !at.Leaf? {
        RemoveIsRewrite(at, p[|p| - 1]);
        WriteHolds(h, doc, t, p, Remove, RemoveFrom(h[at.tag], p[|p| - 1]));
      }
    }
  }

  /** What `removeAt` takes out is no longer part of the draft. */
  lemma {:induction false} RemovedIsDetached(h: Cells, t: Tree, p: seq<string>)
    requires p != [] && Matches(h, t) && Distinct(t) && Get(t, p).Ok? && Update(t, p, Remove).Ok?
    ensures Parent(t, p).Ok? && !Parent(t, p).value.Leaf?
    ensures Parent(t, p).value.tag !in Refs(Get(t, p).value)
    ensures Refs(Get(t, p).value) <= Refs(t)
    ensures Refs(Update(t, p, Remove).value) <= Refs(t)
    ensures Refs(Get(t, p).value) !! Refs(Update(t, p, Remove).value)
    decreases |p|
  {
    hide Matches, Distinct, Refs;
    var c := Child(t, p[0]).value;
    ChildRefs(t, p[0]);
    if |p| == 1 {
      assert p[..0] == [] && p[1..] == [];
      TakenOut(t, p[0]);
    } else {
      assert p[..|p| - 1][1..] == p[1..][..|p| - 2];
      ChildInHeap(h, t, p[0]);
      RemovedIsDetached(h, c, p[1..]);
      KeptRefs(t, p[0], Update(c, p[1..], Remove).value, Refs(Get(t, p).value));
    }
  }

  lemma TakenOut(t: Tree, segment: string)
    requires Distinct(t) && Child(t, segment).Ok? && Rewrite(t, segment, Remove).Ok?
    ensures Refs(Rewrite(t, segment, Remove).value) <= Refs(t)
    ensures Refs(Child(t, segment).value) !! Refs(Rewrite(t, segment, Remove).value)
  {
    match t
    case Obj(r, fields) =>
    case Arr(r, items) =>
      var i := ToIndex(segment).value;
      var rest := Spliced(items, i, Remove);
      forall k | 0 <= k < |rest|
        ensures Refs(rest[k]) <= RefsOfSeq(items) && Refs(rest[k]) !! Refs(items[i])
      {
        SplicedAt(items, i, Remove, k);
        var o := Origin(i, Remove, k).value;
        var a, b := if o < i then o else i, if o < i then i else o;
        assert Refs(items[a]) !! Refs(items[b]);
      }
      assert Refs(items[i]) <= RefsOfSeq(items);
  }

  lemma KeptRefs(t: Tree, segment: string, c': Tree, gone: set<nat>)
    requires Distinct(t) && Child(t, segment).Ok?
    requires Refs(c') <= Refs(Child(t, segment).value) && gone <= Refs(Child(t, segment).value) && gone !! Refs(c')
    ensures Refs(SetChild(t, segment, c')) <= Refs(t) && gone !! Refs(SetChild(t, segment, c'))
  {
    match t
    case Obj(r, fields) =>
    case Arr(r, items) => KeptItems(items, ToIndex(segment).value, c', gone);
  }

  lemma KeptItems(items: seq<Tree>, i: nat, c': Tree, gone: set<nat>)
    requires i < |items| && Apart2(items)
    requires Refs(c') <= Refs(items[i]) && gone <= Refs(items[i]) && gone !! Refs(c')
    ensures RefsOfSeq(items[i := c']) <= RefsOfSeq(items) && gone <= RefsOfSeq(items)
    ensures gone !! RefsOfSeq(items[i := c'])
  {
    hide Refs;
    var items' := items[i := c'];
    assert Refs(items[i]) <= RefsOfSeq(items);
    forall k | 0 <= k < |items'|
      ensures Refs(items'[k]) <= RefsOfSeq(items) && Refs(items'[k]) !! gone
    {
      assert Refs(items[k]) <= RefsOfSeq(items);
      if k != i {
        var a, b := if k < i then k else i, if k < i then i else k;
        assert Refs(items[a]) !! Refs(items[b]);
      }
    }
  }

  /** A `from` with no segments is the whole document. If the guard lets it by, as it does with a
      malformed one, the document is inserted into itself. */
  predicate Swallows(from: string, path: string) {
    ParsePointer(from) == [] && !IsInside(from, path)
  }

  /** No JSON value is what this reads as. */
  ghost predicate Unreadable(h: Cells, v: Val) {
    forall j :: !Denotes(h, v, j)
  }

  /** On a tree a move is the value-level move, but for one of the document into itself: that fails
      as it does, and otherwise leaves what no JSON value is. */
  lemma MoveFollows(h: Cells, doc: Val, from: string, path: string, t: Tree) returns (t': Tree)
    requires Is(h, doc, t)
    ensures var r, a := JsonPatch.ApplyOne(Erase(t), Op<Json>.Move(Some(from), path)), MoveIn(h, doc, from, path);
      && KeepsOutside(h, a.cells, t)
      && if r.Err? then a.error == Some(r.error)
         else if Swallows(from, path) then a.error == None && Unreadable(a.cells, doc)
         else a.error == None && Erase(t') == r.value && Is(a.cells, doc, t') && Refs(t') <= Refs(t)
  {
    hide Is, Refs, Erase, IsInside, Unreadable, MoveIn, JsonPatch.ApplyOne;
    t' := t;
    if Swallows(from, path) {
      SwallowFollows(h, doc, from, path, t);
    } else {
      t' := PartMoves(h, doc, from, path, t);
    }
  }

  lemma PartMoves(h: Cells, doc: Val, from: string, path: string, t: Tree) returns (t': Tree)
    requires Is(h, doc, t) && !Swallows(from, path)
    ensures var r, a := JsonPatch.ApplyOne(Erase(t), Op<Json>.Move(Some(from), path)), MoveIn(h, doc, from, path);
      && KeepsOutside(h, a.cells, t)
      && if r.Err? then a.error == Some(r.error)
         else a.error == None && Erase(t') == r.value && Is(a.cells, doc, t') && Refs(t') <= Refs(t)
  {
    hide Matches, Distinct, Refs, Erase, Get, Update, Follows;
    t' := t;
    if !IsInside(from, path) {
      var p := ParsePointer(from);
      ReadIsGet(h, t, from);
      GetErases(t, p);
      if Get(t, p).Ok? {
        var v := Get(t, p).value;
        GetParts(h, t, p);
        RemovableIffReadable(t, p);
        RemovedIsDetached(h, t, p);
        UpdateErases(t, p, Remove);
        RemoveFollows(h, doc, from, t);
        var without := RemoveIn(h, doc, from);
        var t1 := Update(t, p, Remove).value;
        FollowsOk(h, doc, t, from, Remove, without);
        Frame(h, without.cells, v);
        InsertFollows(without.cells, doc, path, false, t1, v);
        UpdateErases(t1, EditPath(path), Insert(v));
        var moved := InsertIn(without.cells, doc, path, Root(v), false);
        FollowsOk(without.cells, doc, t1, path, Insert(v), moved);
        if moved.error == None { t' := Update(t1, EditPath(path), Insert(v)).value; }
      }
    }
  }

  lemma SwallowFollows(h: Cells, doc: Val, from: string, path: string, t: Tree)
    requires Is(h, doc, t) && Swallows(from, path)
    ensures var r, a := JsonPatch.ApplyOne(Erase(t), Op<Json>.Move(Some(from), path)), MoveIn(h, doc, from, path);
      && KeepsOutside(h, a.cells, t)
      && if r.Err? then a.error == Some(r.error) else a.error == None && Unreadable(a.cells, doc)
  {
    hide Matches, Distinct, Refs, Erase, Update, Follows, ParsePointer, IsInside, InsertIn, RemoveIn, Unreadable;
    RemoveFollows(h, doc, from, t);
    UpdateErases(t, EditPath(from), Remove);
    var without := RemoveIn(h, doc, from);
    FollowsOk(h, doc, t, from, Remove, without);
    if without.error == None {
      var t1 := Update(t, EditPath(from), Remove).value;
      var nothing: Tree := Leaf(Null);
      LeafIsTree(without.cells, t1, Null);
      InsertFollows(without.cells, doc, path, false, t1, nothing);
      FollowsOk(without.cells, doc, t1, path, Insert(nothing), InsertIn(without.cells, doc, path, Prim(Null), false));
      UpdateErases(t1, EditPath(path), Insert(nothing));
      SameFault(Erase(t1), EditPath(path), Erase(nothing), Erase(t));
      SameInsertFault(without.cells, doc, path, Prim(Null), doc);
      if InsertIn(without.cells, doc, path, doc, false).error == None {
        SwallowedIsCyclic(without.cells, doc, path, t1);
      } else {
        FailedInsertKeeps(without.cells, doc, path, doc);
      }
    }
  }

  lemma LeafIsTree(h: Cells, t: Tree, s: Scalar)
    ensures var v: Tree := Leaf(s); Root(v) == Prim(s) && Matches(h, v) && Distinct(v) && Refs(v) !! Refs(t)
  {}

  /** Whether there is a place to insert does not depend on the value. */
  lemma {:induction false} SameFault<A>(n: Node<A>, p: seq<string>, v: Node<A>, w: Node<A>)
    requires p != []
    ensures var a, b := Update(n, p, Insert(v)), Update(n, p, Insert(w)); a.Ok? == b.Ok? && (a.Err? ==> a.error == b.error)
    decreases |p|
  {
    if |p| > 1 {
      var c := Child(n, p[0]);
      if c.Ok? { SameFault(c.value, p[1..], v, w); }
    }
  }

  lemma SameInsertFault(h: Cells, doc: Val, path: string, v: Val, w: Val)
    ensures InsertIn(h, doc, path, v, false).error == InsertIn(h, doc, path, w, false).error
  {
    hide Walk, EditPath;
  }

  lemma FailedInsertKeeps(h: Cells, doc: Val, path: string, v: Val)
    ensures InsertIn(h, doc, path, v, false).error.Some? ==> InsertIn(h, doc, path, v, false).cells == h
  {
    hide Walk, EditPath, InsertInto;
  }

  ghost predicate Has(cell: Cell, v: Val) {
    match cell
    case ArrCell(items) => v in items
    case ObjCell(fields) => exists k :: k in fields && fields[k] == v
  }

  lemma InsertedIsThere(cell: Cell, last: string, v: Val)
    ensures var r := InsertInto(cell, last, v, false); r.Ok? ==> Has(r.value, v)
  {
    if cell.ObjCell? { assert cell.fields[last := v][last] == v; }
  }

  lemma OwnTag(t: Tree)
    ensures !t.Leaf? ==> t.tag in Refs(t)
  {}

  /** Writing a container of a tree changes nothing on the way to it. */
  lemma {:induction false} WalkSurvives(h: Cells, t: Tree, p: seq<string>, cell: Cell)
    requires Matches(h, t) && Distinct(t) && Get(t, p).Ok? && !Get(t, p).value.Leaf?
    ensures var r := Get(t, p).value.tag; Walk(h[r := cell], Root(t), p) == Ok(Ref(r))
    decreases |p|
  {
    hide Matches, Distinct, Refs;
    CellInHeap(h, t);
    if p != [] {
      var c := Child(t, p[0]).value;
      var at := Get(t, p).value;
      ChildInHeap(h, t, p[0]);
      ChildRefs(t, p[0]);
      GetParts(h, c, p[1..]);
      OwnTag(at);
      WalkSurvives(h, c, p[1..], cell);
    }
  }

  /** What a value leads to reads as a part of what it reads as. */
  lemma {:induction false} WalkReads(h: Cells, v: Val, p: seq<string>, j: Json) returns (k: Json)
    requires Denotes(h, v, j) && Walk(h, v, p).Ok?
    ensures Denotes(h, Walk(h, v, p).value, k) && (k == j || k < j)
    decreases |p|
  {
    k := j;
    if p != [] {
      var c := ValChild(h[v.ref], p[0]).value;
      match j {
        case Leaf(_) =>
        case Arr(_, items) => k := WalkReads(h, c, p[1..], items[ToIndex(p[0]).value]);
        case Obj(_, fields) => k := WalkReads(h, c, p[1..], fields[p[0]]);
      }
    }
  }

  /** A value that leads to a container that has it reads as nothing. */
  lemma {:induction false} CyclesReadAsNothing(h: Cells, v: Val, p: seq<string>, r: nat, j: Json)
    requires Walk(h, v, p) == Ok(Ref(r)) && r in h && Has(h[r], v)
    ensures !Denotes(h, v, j)
    decreases j
  {
    if Denotes(h, v, j) {
      var k := WalkReads(h, v, p, j);
      match k
      case Leaf(_) =>
      case Arr(_, items) =>
        var i :| 0 <= i < |items| && h[r].items[i] == v;
        CyclesReadAsNothing(h, v, p, r, items[i]);
      case Obj(_, fields) =>
        var x :| x in fields && h[r].fields[x] == v;
        CyclesReadAsNothing(h, v, p, r, fields[x]);
    }
  }

  lemma SwallowedIsCyclic(h: Cells, doc: Val, path: string, t: Tree)
    requires Is(h, doc, t) && InsertIn(h, doc, path, doc, false).error == None
    ensures var a := InsertIn(h, doc, path, doc, false); KeepsOutside(h, a.cells, t) && Unreadable(a.cells, doc)
  {
    hide Matches, Distinct, Refs, Get, ParsePointer, InsertInto, Walk, Denotes;
    var p := EditPath(path);
    var init, last := p[..|p| - 1], p[|p| - 1];
    WalkIsGet(h, t, init);
    var at := Get(t, init).value;
    GetParts(h, t, init);
    CellInHeap(h, at);
    OwnTag(at);
    var cell := InsertInto(h[at.tag], last, doc, false).value;
    InsertedIsThere(h[at.tag], last, doc);
    WalkSurvives(h, t, init, cell);
    var h' := InsertIn(h, doc, path, doc, false).cells;
    assert h' == h[at.tag := cell];
    forall j ensures !Denotes(h', doc, j) {
      CyclesReadAsNothing(h', doc, init, at.tag, j);
    }
  }

  lemma FollowsOk(h: Cells, doc: Val, t: Tree, path: string, e: Edit<nat>, a: After)
    requires Follows(h, doc, t, path, e, a)
    ensures var r := Update(t, EditPath(path), e);
      && (r.Err? ==> a.error == Some(PatchError(r.error, path)) && a.cells == h)
      && (r.Ok? ==> a.error == None && Is(a.cells, doc, r.value) && Refs(r.value) <= Refs(t) + EditRefs(e) && KeepsOutside(h, a.cells, t))
  {}

  // ---- why the values must not share ------------------------------------------------------

  /** The heap value reads as the JSON value `j`; sharing or not. */
  ghost predicate Denotes(h: Cells, v: Val, j: Json)
    decreases j
  {
    match j
    case Leaf(s) => v == Prim(s)
    case Arr(_, items) =>
      && v.Ref? && v.ref in h && h[v.ref].ArrCell? && |h[v.ref].items| == |items|
      && forall i :: 0 <= i < |items| ==> Denotes(h, h[v.ref].items[i], items[i])
    case Obj(_, fields) =>
      && v.Ref? && v.ref in h && h[v.ref].ObjCell? && h[v.ref].fields.Keys == fields.Keys
      && forall k :: k in fields ==> Denotes(h, h[v.ref].fields[k], fields[k])
  }

  lemma {:induction false} MatchesDenotes(h: Cells, t: Tree)
    requires Matches(h, t)
    ensures Denotes(h, Root(t), Erase(t))
  {
    match t
    case Leaf(_) =>
    case Arr(_, items) =>
      forall i | 0 <= i < |items| ensures Denotes(h, Root(items[i]), Erase(items[i])) { MatchesDenotes(h, items[i]); }
    case Obj(_, fields) =>
      forall k | k in fields ensures Denotes(h, Root(fields[k]), Erase(fields[k])) { MatchesDenotes(h, fields[k]); }
      assert CellOf(t).fields.Keys == fields.Keys;
  }

  lemma Keys()
    ensures ParsePointer("/a") == ["a"] && ParsePointer("/b") == ["b"] && ParsePointer("/a/x") == ["a", "x"]
  {
    PlainKey('a', [], "");
    PlainKey('b', [], "");
    PlainKey('x', [], "");
    PlainKey('a', ["x"], "/x");
    assert "/" + ("a" + "/x") == "/a/x" && "/" + ("a" + "") == "/a" && "/" + ("b" + "") == "/b";
    assert ["a"] + [] == ["a"] && ["b"] + [] == ["b"] && ["a"] + ["x"] == ["a", "x"];
    assert "/" + ("x" + "") == "/x" && ["x"] + [] == ["x"];
    ParseUndoesPrint(["a"]);
    ParseUndoesPrint(["b"]);
    ParseUndoesPrint(["a", "x"]);
  }

  lemma PlainKey(c: char, more: seq<string>, text: string)
    requires c != '~' && c != '/' && Print(more) == text
    ensures Print([[c]] + more) == "/" + ([c] + text)
  {
    assert EncodeSegment([c]) == [c] by { assert [c][1..] == ""; }
    assert ([[c]] + more)[1..] == more;
  }

  /** Adding a member to the draft's own object. */
  lemma AddsMember(h: Cells, r: nat, path: string, key: string, value: Val)
    requires ParsePointer(path) == [key] && r in h && h[r].ObjCell?
    ensures EditIn(h, Ref(r), Add(path, value)) == After(h[r := ObjCell(h[r].fields[key := value])], None)
  {
    hide ParsePointer;
    assert EditPath(path) == [key] && [key][..0] == [];
  }

  /** And to an object that is a member of it. */
  lemma AddsBelow(h: Cells, r: nat, q: nat, path: string, member: string, key: string, value: Val)
    requires ParsePointer(path) == [member, key] && r in h && h[r].ObjCell? && member in h[r].fields
    requires h[r].fields[member] == Ref(q) && q in h && h[q].ObjCell?
    ensures EditIn(h, Ref(r), Add(path, value)) == After(h[q := ObjCell(h[q].fields[key := value])], None)
  {
    hide ParsePointer;
    assert EditPath(path) == [member, key] && [member, key][..1] == [member] && [member][1..] == [];
    assert Walk(h, Ref(r), [member]) == Walk(h, Ref(q), []);
  }

  lemma RunsFirst(h: Cells, doc: Val, op: Op<Val>, ops: seq<Op<Val>>)
    requires Edits(op) && (forall o <- ops :: Edits(o)) && op.path != "" && EditIn(h, doc, op).error == None
    ensures forall o <- [op] + ops :: Edits(o)
    ensures RunIn(h, doc, [op] + ops) == RunIn(EditIn(h, doc, op).cells, doc, ops)
  {
    hide EditIn;
    assert ([op] + ops)[1..] == ops;
  }

  const EMPTY: Json := Obj((), map[])
  const ONE: Json := Obj((), map["x" := Leaf(Num(1))])

  ghost predicate Single(h: Cells, r: nat) {
    r in h && h[r] == ObjCell(map["x" := Prim(Num(1))])
  }

  lemma SingleDenotes(h: Cells, r: nat)
    requires Single(h, r)
    ensures Denotes(h, Ref(r), ONE)
  {
    assert Denotes(h, Prim(Num(1)), ONE.fields["x"]);
  }

  /** One object as the value of two operations: add it at "/a" and at "/b" of an empty document,
      then add 1 at "/a/x". The draft has the 1 in both places, the fold in one. */
  lemma SharedValueLeavesTheFold()
    ensures var h := map[0 := ObjCell(map[]), 1 := ObjCell(map[])];
      var ops := [Op<Val>.Add("/a", Ref(1)), Add("/b", Ref(1)), Add("/a/x", Prim(Num(1)))];
      && RunIn(h, Ref(0), ops).error == None
      && Denotes(RunIn(h, Ref(0), ops).cells, Ref(0), Obj((), map["a" := ONE, "b" := ONE]))
    ensures Fold(EMPTY, [Add("/a", EMPTY), Add("/b", EMPTY), Add("/a/x", Leaf(Num(1)))])
         == Ok(Obj((), map["a" := ONE, "b" := EMPTY]))
    ensures Obj((), map["a" := ONE, "b" := ONE]) != Obj((), map["a" := ONE, "b" := EMPTY])
  {
    SharedInHeap();
    SharedInFold();
    assert "x" in ONE.fields && "x" !in EMPTY.fields;
    assert map["a" := ONE, "b" := ONE]["b"] == ONE && map["a" := ONE, "b" := EMPTY]["b"] == EMPTY;
  }

  lemma SharedInHeap()
    ensures var h := map[0 := ObjCell(map[]), 1 := ObjCell(map[])];
      var ops := [Op<Val>.Add("/a", Ref(1)), Add("/b", Ref(1)), Add("/a/x", Prim(Num(1)))];
      && RunIn(h, Ref(0), ops).error == None
      && Denotes(RunIn(h, Ref(0), ops).cells, Ref(0), Obj((), map["a" := ONE, "b" := ONE]))
  {
    hide EditIn, ParsePointer, RunIn;
    Keys();
    var h: Cells := map[0 := ObjCell(map[]), 1 := ObjCell(map[])];
    var a, b, x := Op<Val>.Add("/a", Ref(1)), Op<Val>.Add("/b", Ref(1)), Op<Val>.Add("/a/x", Prim(Num(1)));
    var h1 := h[0 := ObjCell(h[0].fields["a" := Ref(1)])];
    var h2 := h1[0 := ObjCell(h1[0].fields["b" := Ref(1)])];
    var h3 := h2[1 := ObjCell(h2[1].fields["x" := Prim(Num(1))])];
    AddsMember(h, 0, "/a", "a", Ref(1));
    AddsMember(h1, 0, "/b", "b", Ref(1));
    AddsBelow(h2, 0, 1, "/a/x", "a", "x", Prim(Num(1)));
    RunsFirst(h2, Ref(0), x, []);
    RunsFirst(h1, Ref(0), b, [x]);
    RunsFirst(h, Ref(0), a, [b, x]);
    assert [x] + [] == [x] && [b] + [x] == [b, x] && [a] + [b, x] == [a, b, x];
    assert RunIn(h3, Ref(0), []) == After(h3, None) by { NothingRuns(h3); }
    SingleDenotes(h3, 1);
    assert h3[0].fields.Keys == {"a", "b"};
  }

  lemma NothingRuns(h: Cells)
    ensures RunIn(h, Ref(0), []) == After(h, None) && RunIn(h, Ref(2), []) == After(h, None)
  {}

  lemma SharedInFold()
    ensures Fold(EMPTY, [Add("/a", EMPTY), Add("/b", EMPTY), Add("/a/x", Leaf(Num(1)))])
         == Ok(Obj((), map["a" := ONE, "b" := EMPTY]))
  {
    hide ParsePointer;
    Keys();
    var a, b, x: Op<Json> := Add("/a", EMPTY), Add("/b", EMPTY), Add("/a/x", Leaf(Num(1)));
    var d1: Json := Obj((), map["a" := EMPTY]);
    var d2: Json := Obj((), map["a" := EMPTY, "b" := EMPTY]);
    var d3: Json := Obj((), map["a" := ONE, "b" := EMPTY]);
    assert ApplyOne(EMPTY, a) == Ok(d1);
    assert ApplyOne(d1, b) == Ok(d2);
    assert ["a", "x"][1..] == ["x"];
    assert Update(EMPTY, ["x"], Insert(Leaf(Num(1)))) == Ok(ONE);
    assert SetChild(d2, "a", ONE) == d3;
    assert ApplyOne(d2, x) == Ok(d3);
    assert [a, b, x][1..] == [b, x] && [b, x][1..] == [x] && [x][1..] == [];
    assert Fold(d3, []) == Ok(d3);
    assert Fold(d2, [x]) == Ok(d3);
    assert Fold(d1, [b, x]) == Ok(d3);
  }

  /** A caller's `{"k": {}}` at 0 and its clone, the draft, at 2. */
  const CALLER: Cells := map[0 := ObjCell(map["k" := Ref(1)]), 1 := ObjCell(map[]),
                             2 := ObjCell(map["k" := Ref(3)]), 3 := ObjCell(map[])]

  /** Add the caller's inner object at "/a" and 1 at "/a/x". */
  const CALLERS_OWN: seq<Op<Val>> := [Op<Val>.Add("/a", Ref(1)), Op<Val>.Add("/a/x", Prim(Num(1)))]

  lemma CallersOwnRun()
    ensures forall op <- CALLERS_OWN :: Edits(op)
    ensures var a := RunIn(CALLER, Ref(2), CALLERS_OWN);
      && a.error == None && 0 in a.cells && a.cells[0] == CALLER[0] && Single(a.cells, 1)
  {
    hide EditIn, ParsePointer, RunIn;
    Keys();
    var a, x := CALLERS_OWN[0], CALLERS_OWN[1];
    var h1 := CALLER[2 := ObjCell(CALLER[2].fields["a" := Ref(1)])];
    var h2 := h1[1 := ObjCell(h1[1].fields["x" := Prim(Num(1))])];
    AddsMember(CALLER, 2, "/a", "a", Ref(1));
    AddsBelow(h1, 2, 1, "/a/x", "a", "x", Prim(Num(1)));
    RunsFirst(h1, Ref(2), x, []);
    RunsFirst(CALLER, Ref(2), a, [x]);
    assert [x] + [] == [x] && [a] + [x] == CALLERS_OWN;
    NothingRuns(h2);
  }

  /** An object of the caller's own document as the value of an operation: the document changes
      under the caller, from `{"k": {}}` to `{"k": {"x": 1}}`. */
  lemma SharedWithCallerIsMutated()
    ensures Denotes(CALLER, Ref(0), Obj((), map["k" := EMPTY])) && Denotes(CALLER, Ref(2), Obj((), map["k" := EMPTY]))
    ensures forall op <- CALLERS_OWN :: Edits(op)
    ensures var a := RunIn(CALLER, Ref(2), CALLERS_OWN);
      a.error == None && Denotes(a.cells, Ref(0), Obj((), map["k" := ONE]))
  {
    hide RunIn;
    assert Denotes(CALLER, Ref(1), EMPTY) && Denotes(CALLER, Ref(3), EMPTY);
    CallersOwnRun();
    SingleDenotes(RunIn(CALLER, Ref(2), CALLERS_OWN).cells, 1);
  }
}
