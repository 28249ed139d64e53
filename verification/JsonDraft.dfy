// `applyPatch` of evals/corpus/json-patch/patch.ts: the draft is cloned and then mutated cell by cell.
// Nothing is asked of the heap but that no reference dangles: the document and the operations'
// values may share containers and even be cyclic. What the methods do is said by the functions and
// relations of JsonGraph and JsonRun; JsonFold says what it comes to where nothing is shared.
module JsonDraft {
  import opened Results
  import opened Pointer
  import opened JsonTree
  import opened JsonPatch
  import opened JsonHeap
  import opened JsonGraph
  import opened JsonRun

  class Heap {
    var cells: Cells
    var next: nat

    constructor (initial: Cells, bound: nat)
      requires Closed(initial) && forall r :: r in initial ==> r < bound
      ensures Valid() && cells == initial
    {
      cells, next := initial, bound;
    }

    /** No reference dangles, and `next` is free. */
    ghost predicate Valid()
      reads this
    {
      Closed(cells) && forall r :: r in cells ==> r < next
    }

    method Alloc(cell: Cell) returns (r: nat)
      requires Valid() && CellClosed(cells, cell)
      modifies this
      ensures Valid() && r == old(next) && next == r + 1 && cells == old(cells)[r := cell]
    {
      r := next;
      cells := cells[r := cell];
      next := next + 1;
      forall x | x in cells ensures CellClosed(cells, cells[x]) { assert CellClosed(old(cells), cells[x]); }
    }

    /** `structuredClone`: `memo` remembers the cells that are copied already. */
    method Clone(v: Val) returns (w: Val, ghost m: map<nat, nat>)
      requires Valid() && InHeap(cells, v)
      modifies this
      ensures Valid() && old(next) <= next && IsCopy(old(cells), cells, m, v, w)
    {
      hide Closed, Copying;
      ghost var h := cells;
      NothingCopied(h);
      var memo;
      w, memo := CloneValue(v, map[], h, {});
      m := memo;
    }

    method CloneValue(v: Val, memo: map<nat, nat>, ghost h: Cells, ghost open: set<nat>) returns (w: Val, memo': map<nat, nat>)
      requires Valid() && Closed(h) && InHeap(h, v) && Copying(h, cells, memo, open)
      modifies this
      ensures Valid() && old(next) <= next && Copying(h, cells, memo', open) && Longer(memo, memo')
      ensures Within(v, memo'.Keys) && w == Image(memo', v)
      decreases h.Keys - memo.Keys, 1
    {
      hide Closed, Copying;
      if v.Prim? || v.ref in memo {
        return if v.Prim? then v else Ref(memo[v.ref]), memo;
      }
      StillThere(h, cells, memo, open, v.ref);
      match cells[v.ref] {
        case ArrCell(items) => memo' := CloneArray(v.ref, items, memo, h, open);
        case ObjCell(fields) => memo' := CloneObject(v.ref, fields, memo, h, open);
      }
      w := Ref(memo'[v.ref]);
    }

    method CloneArray(ref: nat, items: seq<Val>, memo: map<nat, nat>, ghost h: Cells, ghost open: set<nat>)
      returns (memo': map<nat, nat>)
      requires Valid() && Closed(h) && ref in h && h[ref] == ArrCell(items) && ref !in memo && Copying(h, cells, memo, open)
      modifies this
      ensures Valid() && old(next) <= next && Copying(h, cells, memo', open) && Longer(memo, memo') && ref in memo'
      decreases h.Keys - memo.Keys, 0
    {
      hide Closed, Copying, CellImage;
      var r := Alloc(ArrCell([]));
      memo' := memo[ref := r];
      Opens(h, old(cells), cells, memo, open, ref, r);
      var vals: seq<Val> := [];
      for i := 0 to |items|
        invariant Valid() && old(next) < next && Copying(h, cells, memo', open + {ref})
        invariant Longer(memo, memo') && ref in memo' && memo'[ref] == r && |vals| == i
        invariant forall k :: 0 <= k < i ==> Within(items[k], memo'.Keys) && vals[k] == Image(memo', items[k])
      {
        ghost var before := memo';
        ItemInHeap(h, ref, i);
        var y;
        y, memo' := CloneValue(items[i], memo', h, open + {ref});
        forall k | 0 <= k < i ensures Within(items[k], memo'.Keys) && vals[k] == Image(memo', items[k]) {
          ImageStays(before, memo', items[k]);
        }
        vals := vals + [y];
      }
      ArrayImage(memo', items, vals);
      Closes(h, cells, memo', open, ref, ArrCell(vals));
      CopyStaysClosed(h, cells, memo', open + {ref}, ref, ArrCell(vals));
      cells := cells[r := ArrCell(vals)];
    }

    method CloneObject(ref: nat, fields: map<string, Val>, memo: map<nat, nat>, ghost h: Cells, ghost open: set<nat>)
      returns (memo': map<nat, nat>)
      requires Valid() && Closed(h) && ref in h && h[ref] == ObjCell(fields) && ref !in memo && Copying(h, cells, memo, open)
      modifies this
      ensures Valid() && old(next) <= next && Copying(h, cells, memo', open) && Longer(memo, memo') && ref in memo'
      decreases h.Keys - memo.Keys, 0
    {
      hide Closed, Copying, CellImage;
      var r := Alloc(ObjCell(map[]));
      memo' := memo[ref := r];
      Opens(h, old(cells), cells, memo, open, ref, r);
      var vals: map<string, Val> := map[];
      var todo := fields.Keys;
      while todo != {}
        invariant Valid() && old(next) < next && Copying(h, cells, memo', open + {ref})
        invariant Longer(memo, memo') && ref in memo' && memo'[ref] == r
        invariant todo <= fields.Keys && vals.Keys == fields.Keys - todo
        invariant forall k :: k in vals ==> Within(fields[k], memo'.Keys) && vals[k] == Image(memo', fields[k])
        decreases todo
      {
        var key :| key in todo;
        ghost var before := memo';
        FieldInHeap(h, ref, key);
        var y;
        y, memo' := CloneValue(fields[key], memo', h, open + {ref});
        forall k | k in vals ensures Within(fields[k], memo'.Keys) && vals[k] == Image(memo', fields[k]) {
          ImageStays(before, memo', fields[k]);
        }
        vals, todo := vals[key := y], todo - {key};
      }
      ObjectImage(memo', fields, vals);
      Closes(h, cells, memo', open, ref, ObjCell(vals));
      CopyStaysClosed(h, cells, memo', open + {ref}, ref, ObjCell(vals));
      cells := cells[r := ObjCell(vals)];
    }

    /** Structural equality: key order is irrelevant, array order is not. None when the calls nest too
        deep. */
    method DeepEqual(a: Val, b: Val, stack: nat) returns (r: Option<bool>)
      requires Valid() && InHeap(cells, a) && InHeap(cells, b)
      ensures Compared(cells, a, b, stack, r)
      decreases stack, 1
    {
      hide Closed;
      if stack == 0 {
        return None;
      }
      if a == b {
        return Some(true);
      }
      if a.Prim? || b.Prim? {
        return Some(false);
      }
      match (cells[a.ref], cells[b.ref]) {
        case (ArrCell(xs), ArrCell(ys)) => r := EqualItems(a.ref, b.ref, xs, ys, stack - 1);
        case (ObjCell(f), ObjCell(g)) => r := EqualFields(a.ref, b.ref, f, g, stack - 1);
        case _ => return Some(false);
      }
    }

    method EqualItems(a: nat, b: nat, xs: seq<Val>, ys: seq<Val>, stack: nat) returns (r: Option<bool>)
      requires Valid() && a in cells && b in cells && cells[a] == ArrCell(xs) && cells[b] == ArrCell(ys) && a != b
      ensures Compared(cells, Ref(a), Ref(b), stack + 1, r)
      decreases stack, 2
    {
      hide Closed;
      if |xs| != |ys| {
        return Some(false);
      }
      for i := 0 to |xs|
        invariant forall k :: 0 <= k < i ==> forall n :: Same(cells, xs[k], ys[k], n)
      {
        ItemInHeap(cells, a, i);
        ItemInHeap(cells, b, i);
        r := DeepEqual(xs[i], ys[i], stack);
        if r != Some(true) {
          assert xs[i] in xs && ys[i] in ys;
          return r;
        }
      }
      forall n: nat ensures Same(cells, Ref(a), Ref(b), n) {
        if n > 0 { assert forall k :: 0 <= k < |xs| ==> Same(cells, xs[k], ys[k], n - 1); }
      }
      return Some(true);
    }

    method EqualFields(a: nat, b: nat, f: map<string, Val>, g: map<string, Val>, stack: nat) returns (r: Option<bool>)
      requires Valid() && a in cells && b in cells && cells[a] == ObjCell(f) && cells[b] == ObjCell(g) && a != b
      ensures Compared(cells, Ref(a), Ref(b), stack + 1, r)
      decreases stack, 2
    {
      hide Closed;
      if |f.Keys| != |g.Keys| {
        return Some(false);
      }
      var todo := f.Keys;
      while todo != {}
        invariant todo <= f.Keys && f.Keys - todo <= g.Keys
        invariant forall k :: k in f.Keys - todo ==> forall n :: Same(cells, f[k], g[k], n)
        decreases todo
      {
        var key :| key in todo;
        if key !in g {
          return Some(false);
        }
        FieldInHeap(cells, a, key);
        FieldInHeap(cells, b, key);
        r := DeepEqual(f[key], g[key], stack);
        if r != Some(true) {
          return r;
        }
        todo := todo - {key};
      }
      SameSizeSubset(f.Keys, g.Keys);
      forall n: nat ensures Same(cells, Ref(a), Ref(b), n) {
        if n > 0 { assert forall k :: k in f ==> Same(cells, f[k], g[k], n - 1); }
      }
      return Some(true);
    }

    /** The container that the last segment is looked up in. */
    method ParentOf(doc: Val, segments: seq<string>, path: string) returns (r: Result<Val, PatchError>)
      requires Closed(cells) && InHeap(cells, doc)
      ensures var parent := Walk(cells, doc, segments[..if segments == [] then 0 else |segments| - 1]);
        r == match parent case Ok(v) => Ok(v) case Err(f) => Err(PatchError(f, path))
      ensures r.Ok? ==> InHeap(cells, r.value)
    {
      hide ValChild;
      var node := doc;
      var steps := if segments == [] then 0 else |segments| - 1;
      ghost var way := segments[..steps];
      for i := 0 to steps
        invariant InHeap(cells, node) && Walk(cells, doc, way) == Walk(cells, node, way[i..])
      {
        var segment := segments[i];
        assert way[i..][0] == segment && way[i..][1..] == way[i + 1..];
        if node.Prim? {
          return Err(PatchError(NoSuchKey(segment), path));
        }
        var child := PropertyOf(node.ref, segment);
        if child.Err? {
          return Err(PatchError(child.error, path));
        }
        ChildStaysInHeap(cells, node.ref, segment);
        node := child.value;
      }
      return Ok(node);
    }

    /** One property read, as `parentOf` and `readAt` both make it. */
    method PropertyOf(ref: nat, segment: string) returns (r: Result<Val, Fault>)
      requires ref in cells
      ensures r == ValChild(cells[ref], segment)
    {
      match cells[ref]
      case ArrCell(items) =>
        var index := ToIndex(segment);
        if index.None? || index.value >= |items| {
          return Err(NoSuchIndex(segment));
        }
        return Ok(items[index.value]);
      case ObjCell(fields) =>
        if segment !in fields {
          return Err(NoSuchKey(segment));
        }
        return Ok(fields[segment]);
    }

    method ReadAt(doc: Val, path: string) returns (r: Result<Val, PatchError>)
      requires Closed(cells) && InHeap(cells, doc)
      ensures r == ReadIn(cells, doc, path)
      ensures r.Ok? ==> InHeap(cells, r.value)
    {
      hide ValChild, ParsePointer;
      var segments := ParsePointer(path);
      WalkStaysInHeap(cells, doc, segments);
      if segments == [] {
        return Ok(doc);
      }
      var parent := ParentOf(doc, segments, path);
      var last := segments[|segments| - 1];
      assert segments == segments[..|segments| - 1] + [last];
      WalkAppends(cells, doc, segments[..|segments| - 1], last);
      if parent.Err? {
        return parent;
      }
      if parent.value.Prim? {
        return Err(PatchError(NoSuchKey(last), path));
      }
      var found := PropertyOf(parent.value.ref, last);
      if found.Err? {
        return Err(PatchError(found.error, path));
      }
      return Ok(found.value);
    }

    /** On any heap, shared containers or not. */
    method InsertAt(doc: Val, path: string, value: Val, replace: bool) returns (err: Option<PatchError>)
      requires Valid() && InHeap(cells, doc) && InHeap(cells, value)
      modifies `cells
      ensures Valid() && After(cells, err) == InsertIn(old(cells), doc, path, value, replace)
      ensures cells.Keys == old(cells).Keys
    {
      hide Walk, ParsePointer;
      InsertKeepsClosed(cells, doc, path, value, replace);
      var segments := ParsePointer(path);
      var parent := ParentOf(doc, segments, path);
      NoSegmentsNoSteps(cells, doc);
      if parent.Err? {
        return Some(parent.error);
      }
      var last := if segments == [] then "" else segments[|segments| - 1];
      if parent.value.Prim? {
        return Some(PatchError(NotAContainer, path));
      }
      var ref := parent.value.ref;
      match cells[ref] {
        case ArrCell(items) =>
          if last == "-" {
            cells := cells[ref := ArrCell(items + [value])];
            return None;
          }
          var index := ToIndex(last);
          var limit := if replace then |items| - 1 else |items|;
          if index.None? || index.value > limit {
            return Some(PatchError(IndexOutOfRange(last), path));
          }
          var spliced := items[..index.value] + [value] + items[index.value + if replace then 1 else 0..];
          cells := cells[ref := ArrCell(spliced)];
        case ObjCell(fields) => cells := cells[ref := ObjCell(fields[last := value])];
      }
      return None;
    }

    method RemoveAt(doc: Val, path: string) returns (err: Option<PatchError>)
      requires Valid() && InHeap(cells, doc)
      modifies `cells
      ensures Valid() && After(cells, err) == RemoveIn(old(cells), doc, path)
      ensures cells.Keys == old(cells).Keys
    {
      hide Walk, ParsePointer;
      RemoveKeepsClosed(cells, doc, path);
      var segments := ParsePointer(path);
      var parent := ParentOf(doc, segments, path);
      NoSegmentsNoSteps(cells, doc);
      if parent.Err? {
        return Some(parent.error);
      }
      var last := if segments == [] then "" else segments[|segments| - 1];
      if parent.value.Prim? {
        return Some(PatchError(NoSuchKey(last), path));
      }
      var ref := parent.value.ref;
      match cells[ref] {
        case ArrCell(items) =>
          var index := ToIndex(last);
          if index.None? || index.value >= |items| {
            return Some(PatchError(NoSuchIndex(last), path));
          }
          cells := cells[ref := ArrCell(items[..index.value] + items[index.value + 1..])];
        case ObjCell(fields) =>
          if last !in fields {
            return Some(PatchError(NoSuchKey(last), path));
          }
          cells := cells[ref := ObjCell(fields - {last})];
      }
      return None;
    }

    method MoveValue(doc: Val, from: string, path: string) returns (err: Option<PatchError>)
      requires Valid() && InHeap(cells, doc)
      modifies `cells
      ensures Valid() && After(cells, err) == MoveIn(old(cells), doc, from, path)
      ensures cells.Keys == old(cells).Keys
    {
      hide InsertIn, RemoveIn, ReadIn, IsInside;
      if IsInside(from, path) {
        return Some(PatchError(IntoItself, path));
      }
      var value := ReadAt(doc, from);
      if value.Err? {
        return Some(value.error);
      }
      err := RemoveAt(doc, from);
      if err.Some? {
        return err;
      }
      err := InsertAt(doc, path, value.value, false);
    }

    method CopyValue(doc: Val, from: string, path: string) returns (err: Option<PatchError>)
      requires Valid() && InHeap(cells, doc)
      modifies this
      ensures Valid() && old(next) <= next && old(cells).Keys <= cells.Keys
      ensures forall stack :: StepTo(old(cells), doc, Copy(Some(from), path), stack, After(cells, err))
    {
      hide InsertIn, ReadIn, Closed, Copying;
      var value := ReadAt(doc, from);
      if value.Err? {
        return Some(value.error);
      }
      var copy, m := Clone(value.value);
      CopyInHeap(old(cells), cells, m, value.value, copy);
      err := InsertAt(doc, path, copy, false);
    }

    method TestValue(doc: Val, path: string, value: Val, stack: nat) returns (err: Option<PatchError>)
      requires Valid() && InHeap(cells, doc) && InHeap(cells, value)
      ensures StepTo(cells, doc, Test(path, value), stack, After(cells, err))
    {
      hide Closed, ReadIn, Compared;
      var found := ReadAt(doc, path);
      if found.Err? {
        return Some(found.error);
      }
      var equal := DeepEqual(found.value, value, stack);
      err := Verdict(equal, path);
    }

    method ApplyOne(doc: Val, op: Op<Val>, stack: nat) returns (err: Option<PatchError>)
      requires Valid() && InHeap(cells, doc) && (HasValue(op) ==> InHeap(cells, op.value))
      modifies this
      ensures Valid() && old(next) <= next && old(cells).Keys <= cells.Keys
      ensures StepTo(old(cells), doc, op, stack, After(cells, err))
    {
      hide InsertIn, RemoveIn, MoveIn, ReadIn, Closed, IsCopy, Compared;
      match op {
        case Add(path, value) => err := InsertAt(doc, path, value, false);
        case Put(path, value) =>
          var found := ReadAt(doc, path);
          if found.Err? {
            err := Some(found.error);
          } else {
            err := InsertAt(doc, path, value, true);
          }
        case Delete(path) => err := RemoveAt(doc, path);
        case Test(path, value) => err := TestValue(doc, path, value, stack);
        case Move(_, path) => err := MoveValue(doc, op.Source(), path);
        case Copy(_, path) =>
          err := CopyValue(doc, op.Source(), path);
          assert StepTo(old(cells), doc, Copy(Some(op.Source()), path), stack, After(cells, err));
      }
    }

    /** `applyPatch`: a run of the operations on a copy of the document. */
    method ApplyPatch(doc: Val, ops: seq<Op<Val>>, stack: nat)
      returns (r: Result<Val, PatchError>, ghost copied: Cells, ghost m: map<nat, nat>, ghost root: Val)
      requires Valid() && InHeap(cells, doc) && forall op <- ops :: HasValue(op) ==> InHeap(cells, op.value)
      modifies this
      ensures Valid() && IsCopy(old(cells), copied, m, doc, root)
      ensures RunTo(copied, root, ops, stack, After(cells, if r.Ok? then None else Some(r.error)))
      ensures r.Ok? ==> r.value == root
    {
      hide Closed, IsCopy, StepTo, RunTo;
      var draft;
      draft, m := Clone(doc);
      copied, root := cells, draft;
      CopyInHeap(old(cells), cells, m, doc, draft);
      assert ops[0..] == ops;
      for i := 0 to |ops|
        invariant Valid() && InHeap(cells, draft) && old(cells).Keys <= cells.Keys
        invariant forall a :: RunTo(cells, draft, ops[i..], stack, a) ==> RunTo(copied, draft, ops, stack, a)
      {
        var op := ops[i];
        assert op in ops && ops[i..][0] == op && ops[i..][1..] == ops[i + 1..];
        if op.path == "" && !op.Test? {
          RunStops(cells, draft, ops[i..], stack);
          return Err(PatchError(WholeDocument, "")), copied, m, root;
        }
        ghost var before := cells;
        var err := ApplyOne(draft, op, stack);
        RunSteps(before, draft, ops[i..], stack, After(cells, err));
        if err.Some? {
          return Err(err.value), copied, m, root;
        }
      }
      assert ops[|ops|..] == [];
      RunStops(cells, draft, [], stack);
      return Ok(draft), copied, m, root;
    }
  }

  // ---- copying -------------------------------------------------------------------------------------

  ghost predicate Longer(m: map<nat, nat>, m': map<nat, nat>) {
    forall r :: r in m ==> r in m' && m'[r] == m[r]
  }

  lemma NothingCopied(h: Cells)
    ensures Copying(h, h, map[], {})
  {}

  lemma StillThere(h: Cells, h': Cells, memo: map<nat, nat>, open: set<nat>, r: nat)
    requires Copying(h, h', memo, open) && r in h
    ensures r in h' && h'[r] == h[r]
  {}

  lemma ItemInHeap(h: Cells, r: nat, i: nat)
    requires Closed(h) && r in h && h[r].ArrCell? && i < |h[r].items|
    ensures InHeap(h, h[r].items[i])
  {
    CellIsClosed(h, r);
  }

  lemma FieldInHeap(h: Cells, r: nat, key: string)
    requires Closed(h) && r in h && h[r].ObjCell? && key in h[r].fields
    ensures InHeap(h, h[r].fields[key])
  {
    CellIsClosed(h, r);
  }

  lemma ImageStays(m: map<nat, nat>, m': map<nat, nat>, v: Val)
    requires Longer(m, m') && Within(v, m.Keys)
    ensures Within(v, m'.Keys) && Image(m', v) == Image(m, v)
  {}

  lemma CellImageStays(m: map<nat, nat>, m': map<nat, nat>, cell: Cell)
    requires Longer(m, m') && CellWithin(cell, m.Keys)
    ensures CellWithin(cell, m'.Keys) && CellImage(m', cell) == CellImage(m, cell)
  {
    match cell
    case ArrCell(items) =>
      forall i | 0 <= i < |items| ensures Image(m', items[i]) == Image(m, items[i]) && Within(items[i], m'.Keys) {
        assert items[i] in items;
      }
    case ObjCell(fields) =>
  }

  lemma ValuesGrow(memo: map<nat, nat>, ref: nat, r: nat)
    requires ref !in memo
    ensures memo[ref := r].Values == memo.Values + {r}
  {
    var memo' := memo[ref := r];
    assert memo'[ref] == r;
    forall x | x in memo.Values ensures x in memo'.Values {
      var q :| q in memo && memo[q] == x;
      assert memo'[q] == x;
    }
  }

  /** A new cell for one that is yet to be copied. */
  lemma Opens(h: Cells, h1: Cells, h2: Cells, memo: map<nat, nat>, open: set<nat>, ref: nat, r: nat)
    requires Copying(h, h1, memo, open) && ref in h && ref !in memo && r !in h1 && r in h2 && h2 == h1[r := h2[r]]
    ensures Copying(h, h2, memo[ref := r], open + {ref})
  {
    hide CellWithin, CellImage;
    var memo' := memo[ref := r];
    ValuesGrow(memo, ref, r);
    forall q | q in memo'.Keys - (open + {ref}) ensures CellWithin(h[q], memo'.Keys) && h2[memo'[q]] == CellImage(memo', h[q]) {
      assert q in memo.Keys - open;
      CellImageStays(memo, memo', h[q]);
    }
  }

  /** It gets the image of what that one has. */
  lemma Closes(h: Cells, h': Cells, memo: map<nat, nat>, open: set<nat>, ref: nat, cell: Cell)
    requires Copying(h, h', memo, open + {ref}) && ref in memo
    requires CellWithin(h[ref], memo.Keys) && cell == CellImage(memo, h[ref])
    ensures Copying(h, h'[memo[ref] := cell], memo, open)
  {
    hide CellWithin, CellImage;
  }

  lemma CopyStaysClosed(h: Cells, h': Cells, memo: map<nat, nat>, open: set<nat>, ref: nat, cell: Cell)
    requires Copying(h, h', memo, open) && Closed(h') && ref in memo
    requires CellWithin(h[ref], memo.Keys) && cell == CellImage(memo, h[ref])
    ensures memo[ref] in h' && Closed(h'[memo[ref] := cell])
  {
    hide Closed, CellImage, CellWithin;
    ImageWithin(memo, h[ref]);
    WithinIsClosed(h', memo.Values, cell);
    WriteKeepsClosed(h', memo[ref], cell);
  }

  lemma WithinIsClosed(h: Cells, region: set<nat>, cell: Cell)
    requires CellWithin(cell, region) && region <= h.Keys
    ensures CellClosed(h, cell)
  {}

  lemma ArrayImage(memo: map<nat, nat>, items: seq<Val>, vals: seq<Val>)
    requires |vals| == |items|
    requires forall k :: 0 <= k < |items| ==> Within(items[k], memo.Keys) && vals[k] == Image(memo, items[k])
    ensures CellWithin(ArrCell(items), memo.Keys) && CellImage(memo, ArrCell(items)) == ArrCell(vals)
  {
    assert CellImage(memo, ArrCell(items)).items == vals;
  }

  lemma ObjectImage(memo: map<nat, nat>, fields: map<string, Val>, vals: map<string, Val>)
    requires vals.Keys == fields.Keys
    requires forall k :: k in vals ==> Within(fields[k], memo.Keys) && vals[k] == Image(memo, fields[k])
    ensures CellWithin(ObjCell(fields), memo.Keys) && CellImage(memo, ObjCell(fields)) == ObjCell(vals)
  {
    assert CellImage(memo, ObjCell(fields)).fields == vals;
  }

  lemma CopyInHeap(h: Cells, h': Cells, m: map<nat, nat>, v: Val, w: Val)
    requires IsCopy(h, h', m, v, w)
    ensures InHeap(h', w) && h.Keys <= h'.Keys
  {}

  // ---- running -------------------------------------------------------------------------------------

  lemma RunStops(h: Cells, doc: Val, ops: seq<Op<Val>>, stack: nat)
    ensures ops == [] ==> RunTo(h, doc, ops, stack, After(h, None))
    ensures ops != [] && ops[0].path == "" && !ops[0].Test? ==>
      RunTo(h, doc, ops, stack, After(h, Some(PatchError(WholeDocument, ""))))
  {}

  lemma RunSteps(h: Cells, doc: Val, ops: seq<Op<Val>>, stack: nat, next: After)
    requires ops != [] && !(ops[0].path == "" && !ops[0].Test?) && StepTo(h, doc, ops[0], stack, next)
    ensures next.error.Some? ==> RunTo(h, doc, ops, stack, next)
    ensures next.error.None? ==>
      forall a :: RunTo(next.cells, doc, ops[1..], stack, a) ==> RunTo(h, doc, ops, stack, a)
  {
    hide StepTo;
  }

  lemma {:induction false} SameSizeSubset<T>(a: set<T>, b: set<T>)
    requires a <= b && |a| == |b|
    ensures a == b
    decreases a
  {
    if x :| x in a {
      SameSizeSubset(a - {x}, b - {x});
    } else {
      assert a == {};
    }
  }

  lemma {:induction false} WalkAppends(h: Cells, v: Val, p: seq<string>, segment: string)
    ensures Walk(h, v, p + [segment]) == if Walk(h, v, p).Ok? then Walk(h, Walk(h, v, p).value, [segment]) else Walk(h, v, p)
    decreases |p|
  {
    if p == [] {
      assert [] + [segment] == [segment];
    } else {
      assert (p + [segment])[1..] == p[1..] + [segment];
      if v.Ref? && v.ref in h && ValChild(h[v.ref], p[0]).Ok? { WalkAppends(h, ValChild(h[v.ref], p[0]).value, p[1..], segment); }
    }
  }

  lemma NoSegmentsNoSteps(h: Cells, doc: Val)
    ensures Walk(h, doc, [""][..0]) == Walk(h, doc, [])
  {
    assert [""][..0] == [];
  }
}
