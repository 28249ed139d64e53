// On trees that share nothing a patch is the fold of patch.ts's operations on values.
module JsonFold {
  import opened Results
  import opened Pointer
  import opened JsonTree
  import opened JsonPatch
  import opened JsonHeap
  import opened JsonGraph
  import opened JsonRun

  // ---- one operation ---------------------------------------------------------------------------

  /** A move of the document into itself that the guard lets by. */
  predicate Swallowing<V>(op: Op<V>) {
    op.Move? && Swallows(op.Source(), op.path)
  }

  /** The operation on JSON values that a heap operation stands for. */
  ghost function Plain(op: Op<Val>, v: Tree): Op<Json> {
    match op
    case Add(path, _) => Add(path, Erase(v))
    case Delete(path) => Delete(path)
    case Put(path, _) => Put(path, Erase(v))
    case Move(_, path) => Move(Some(op.Source()), path)
    case Copy(_, path) => Copy(Some(op.Source()), path)
    case Test(path, _) => Test(path, Erase(v))
  }

  /** An edit of a draft that is a tree, of a value apart from it, is the value-level operation; only
      a move of the document into itself leaves what no JSON value is, if it goes through. */
  lemma EditFollows(h: Cells, doc: Val, op: Op<Val>, t: Tree, v: Tree) returns (t': Tree)
    requires Edits(op) && Is(h, doc, t)
    requires HasValue(op) ==> Is(h, op.value, v) && Refs(v) !! Refs(t)
    ensures var r, a := JsonPatch.ApplyOne(Erase(t), Plain(op, v)), EditIn(h, doc, op);
      && (if r.Err? then a.error == Some(r.error)
          else if Swallowing(op) then a.error == None && Unreadable(a.cells, doc)
          else a.error == None && Erase(t') == r.value && Is(a.cells, doc, t')
               && Refs(t') <= Refs(t) + (if HasValue(op) then Refs(v) else {}))
      && KeepsOutside(h, a.cells, t)
  {
    hide Matches, Distinct, Refs, Erase, Get, Update, InsertIn, RemoveIn, MoveIn, Follows, Swallows, Unreadable;
    t' := t;
    match op {
      case Add(path, value) =>
        InsertFollows(h, doc, path, false, t, v);
        t' := OneEdit(h, doc, path, Insert(v), t, InsertIn(h, doc, path, value, false));
      case Put(path, value) =>
        ReadIsGet(h, t, path);
        GetErases(t, ParsePointer(path));
        InsertFollows(h, doc, path, true, t, v);
        if Get(t, ParsePointer(path)).Ok? {
          t' := OneEdit(h, doc, path, Replace(v), t, InsertIn(h, doc, path, value, true));
        }
      case Delete(path) =>
        RemoveFollows(h, doc, path, t);
        t' := OneEdit(h, doc, path, Remove, t, RemoveIn(h, doc, path));
      case Move(_, path) => t' := MoveFollows(h, doc, op.Source(), path, t);
    }
  }

  lemma OneEdit(h: Cells, doc: Val, path: string, e: Edit<nat>, t: Tree, a: After) returns (t': Tree)
    requires Follows(h, doc, t, path, e, a)
    ensures var r := Write(Erase(t), path, EraseEdit(e));
      && (if r.Err? then a.error == Some(r.error)
          else a.error == None && Erase(t') == r.value && Is(a.cells, doc, t') && Refs(t') <= Refs(t) + EditRefs(e))
      && KeepsOutside(h, a.cells, t)
  {
    hide Matches, Distinct, Refs, Erase, Update;
    UpdateErases(t, EditPath(path), e);
    var r := Update(t, EditPath(path), e);
    t' := if r.Ok? then r.value else t;
  }

  /** The comparison of `test` ran out of stack, and the value does nest that deep. */
  ghost predicate Exhausted(op: Op<Val>, v: Tree, stack: nat, a: After) {
    op.Test? && Nests(Erase(v), stack) && a.error == Some(PatchError(StackExhausted, op.path))
  }

  /** An operation on a draft came to what the value-level operation comes to. */
  ghost predicate Comes(h: Cells, doc: Val, op: Op<Val>, t: Tree, v: Tree, a: After, t': Tree) {
    var r := JsonPatch.ApplyOne(Erase(t), Plain(op, v));
    if r.Err? then a.error == Some(r.error)
    else if Swallowing(op) then a.error == None && Unreadable(a.cells, doc)
    else
      && a.error == None && Erase(t') == r.value && Is(a.cells, doc, t')
      && forall x <- Refs(t') :: x in Refs(t) || (HasValue(op) && x in Refs(v)) || x !in h
  }

  ghost predicate KeepsOld(h: Cells, h': Cells, t: Tree) {
    h.Keys <= h'.Keys && forall r :: r in h && r !in Refs(t) ==> h'[r] == h[r]
  }

  lemma TestFollows(h: Cells, doc: Val, op: Op<Val>, stack: nat, a: After, t: Tree, v: Tree)
    requires op.Test? && StepTo(h, doc, op, stack, a) && Is(h, doc, t) && Is(h, op.value, v)
    ensures a.cells == h && (Exhausted(op, v, stack, a) || Comes(h, doc, op, t, v, a, t))
  {
    hide Matches, Distinct, Refs, Erase, Get, Compared, Denotes;
    var p := ParsePointer(op.path);
    ReadIsGet(h, t, op.path);
    GetErases(t, p);
    if Get(t, p).Ok? {
      var found := Get(t, p).value;
      GetParts(h, t, p);
      MatchesDenotes(h, found);
      MatchesDenotes(h, v);
      var r :| Compared(h, Root(found), op.value, stack, r) && a.error == Verdict(r, op.path);
      ComparesJson(h, Root(found), op.value, Erase(found), Erase(v), stack, r);
    }
  }

  lemma CopyFollows(h: Cells, doc: Val, op: Op<Val>, stack: nat, a: After, t: Tree, v: Tree) returns (t': Tree)
    requires op.Copy? && StepTo(h, doc, op, stack, a) && Is(h, doc, t)
    ensures Comes(h, doc, op, t, v, a, t') && KeepsOld(h, a.cells, t)
  {
    hide Is, Refs, Erase, Get, Comes, KeepsOld, InsertIn, IsCopy, EditPath, Update, ParsePointer;
    t' := t;
    var p := ParsePointer(op.Source());
    CopyReads(h, doc, op, t);
    if Get(t, p).Ok? {
      var found := Get(t, p).value;
      var h', m, w :| IsCopy(h, h', m, Root(found), w) && a == InsertIn(h', doc, op.path, w, false);
      t' := CopyInserts(h, h', m, doc, op, w, t, v);
    } else {
      CopyFails(h, doc, op, t, v, a);
    }
  }

  lemma CopyReads(h: Cells, doc: Val, op: Op<Val>, t: Tree)
    requires op.Copy? && Is(h, doc, t)
    ensures var found := Get(t, ParsePointer(op.Source()));
      ReadIn(h, doc, op.Source()) == if found.Ok? then Ok(Root(found.value)) else Err(PatchError(found.error, op.Source()))
  {
    hide Matches, Distinct, Get;
    ReadIsGet(h, t, op.Source());
  }

  lemma CopyFails(h: Cells, doc: Val, op: Op<Val>, t: Tree, v: Tree, a: After)
    requires op.Copy? && Is(h, doc, t) && Get(t, ParsePointer(op.Source())).Err?
    requires a == After(h, Some(PatchError(Get(t, ParsePointer(op.Source())).error, op.Source())))
    ensures Comes(h, doc, op, t, v, a, t) && KeepsOld(h, a.cells, t)
  {
    hide Matches, Distinct, Refs, Erase, Get, Update;
    GetErases(t, ParsePointer(op.Source()));
  }

  lemma CopyInserts(h: Cells, h': Cells, m: map<nat, nat>, doc: Val, op: Op<Val>, w: Val, t: Tree, v: Tree) returns (t': Tree)
    requires op.Copy? && Is(h, doc, t) && Get(t, ParsePointer(op.Source())).Ok?
    requires IsCopy(h, h', m, Root(Get(t, ParsePointer(op.Source())).value), w)
    ensures var a := InsertIn(h', doc, op.path, w, false); Comes(h, doc, op, t, v, a, t') && KeepsOld(h, a.cells, t)
  {
    hide Matches, Distinct, Refs, Erase, Get, Update, InsertIn, IsCopy, Renamed;
    var p := ParsePointer(op.Source());
    var found := Get(t, p).value;
    GetErases(t, p);
    GetParts(h, t, p);
    CopyIsTree(h, h', m, Root(found), w, found);
    CopyIsApart(h, h', m, Root(found), w);
    RefsAllocated(h, t);
    Frame(h, h', t);
    t' := TreeInserts(h', doc, op.path, w, t, Renamed(found, m));
  }

  /** Inserting a tree apart from the draft. */
  lemma TreeInserts(h: Cells, doc: Val, path: string, w: Val, t: Tree, u: Tree) returns (t': Tree)
    requires Is(h, doc, t) && Is(h, w, u) && Refs(u) !! Refs(t)
    ensures var r, a := Write(Erase(t), path, Insert(Erase(u))), InsertIn(h, doc, path, w, false);
      && (if r.Err? then a.error == Some(r.error)
          else a.error == None && Erase(t') == r.value && Is(a.cells, doc, t') && Refs(t') <= Refs(t) + Refs(u))
      && KeepsOutside(h, a.cells, t)
  {
    hide Matches, Distinct, Refs, Erase, InsertIn, Follows;
    InsertFollows(h, doc, path, false, t, u);
    t' := OneEdit(h, doc, path, Insert(u), t, InsertIn(h, doc, path, w, false));
  }

  lemma CopyIsApart(h: Cells, h': Cells, m: map<nat, nat>, v: Val, w: Val)
    requires IsCopy(h, h', m, v, w)
    ensures m.Values !! h.Keys && Extends(h, h')
  {}

  /** Any operation on a draft that is a tree, with a value apart from it. */
  lemma StepFollows(h: Cells, doc: Val, op: Op<Val>, stack: nat, a: After, t: Tree, v: Tree) returns (t': Tree)
    requires StepTo(h, doc, op, stack, a) && Is(h, doc, t)
    requires HasValue(op) ==> Is(h, op.value, v) && Refs(v) !! Refs(t)
    ensures Exhausted(op, v, stack, a) || Comes(h, doc, op, t, v, a, t')
    ensures KeepsOld(h, a.cells, t)
  {
    hide Matches, Distinct, Refs, Erase, EditIn;
    if op.Test? {
      TestFollows(h, doc, op, stack, a, t, v);
      t' := t;
    } else if op.Copy? {
      t' := CopyFollows(h, doc, op, stack, a, t, v);
    } else {
      t' := EditFollows(h, doc, op, t, v);
    }
  }

  // ---- the whole patch ---------------------------------------------------------------------------

  ghost function PlainAll(ops: seq<Op<Val>>, vs: seq<Tree>): (plain: seq<Op<Json>>)
    requires |ops| == |vs|
    ensures |plain| == |ops| && forall i :: 0 <= i < |ops| ==> plain[i] == Plain(ops[i], vs[i])
  {
    seq(|ops|, i requires 0 <= i < |ops| => Plain(ops[i], vs[i]))
  }

  /** The values of the operations still to come are intact. */
  ghost predicate Held(h: Cells, ops: seq<Op<Val>>, vs: seq<Tree>, from: nat)
    requires |ops| == |vs|
  {
    forall j :: from <= j < |ops| && HasValue(ops[j]) ==>
      Root(vs[j]) == ops[j].value && Matches(h, vs[j]) && Distinct(vs[j])
  }

  lemma HeldRefs(h: Cells, ops: seq<Op<Val>>, vs: seq<Tree>, from: nat)
    requires |ops| == |vs| && Held(h, ops, vs, from)
    ensures forall j :: from <= j < |ops| && HasValue(ops[j]) ==> Refs(vs[j]) <= h.Keys
  {
    forall j | from <= j < |ops| && HasValue(ops[j]) ensures Refs(vs[j]) <= h.Keys { RefsAllocated(h, vs[j]); }
  }

  lemma KeepHeld(h: Cells, h': Cells, d: Tree, ops: seq<Op<Val>>, vs: seq<Tree>, from: nat)
    requires |ops| == |vs| && Held(h, ops, vs, from)
    requires forall j :: from <= j < |ops| && HasValue(ops[j]) ==> Refs(vs[j]) !! Refs(d)
    requires forall r :: r in h && r !in Refs(d) ==> r in h' && h'[r] == h[r]
    ensures Held(h', ops, vs, from)
    ensures forall j :: from <= j < |ops| && HasValue(ops[j]) ==> Refs(vs[j]) <= h.Keys
  {
    HeldRefs(h, ops, vs, from);
    forall j | from <= j < |ops| && HasValue(ops[j]) ensures Matches(h', vs[j]) { Frame(h, h', vs[j]); }
  }

  /** The operations' values are trees, and no two share a cell, nor any with the document. */
  ghost predicate Separate(ops: seq<Op<Val>>, vs: seq<Tree>, t: Tree)
    requires |ops| == |vs|
  {
    && (forall i, j :: 0 <= i < j < |ops| && HasValue(ops[i]) && HasValue(ops[j]) ==> Refs(vs[i]) !! Refs(vs[j]))
    && (forall i :: 0 <= i < |ops| && HasValue(ops[i]) ==> Refs(vs[i]) !! Refs(t))
  }

  /** After `i` operations the draft is the tree `d`, the document and the values still to come
      are what they were, and the rest of the fold from `d` is the whole of it. */
  ghost predicate UpTo(h0: Cells, h: Cells, draft: Val, d: Tree, t: Tree, ops: seq<Op<Val>>, vs: seq<Tree>, i: nat)
    requires |ops| == |vs| && i <= |ops|
  {
    && Is(h, draft, d) && Refs(d) !! Refs(t) && Matches(h0, t) && Untouched(h0, h, t)
    && Separate(ops, vs, t) && Held(h, ops, vs, i)
    && (forall j :: i <= j < |ops| && HasValue(ops[j]) ==> Refs(vs[j]) !! Refs(d))
    && Fold(Erase(t), PlainAll(ops, vs)) == Fold(Erase(d), PlainAll(ops, vs)[i..])
    && Fold(Erase(t), PlainAll(ops, vs)[..i]) == Ok(Erase(d))
  }

  ghost predicate Untouched(h0: Cells, h: Cells, t: Tree) {
    forall x <- Refs(t) :: x in h0 && x in h && h[x] == h0[x]
  }

  lemma FromCopy(h0: Cells, h: Cells, draft: Val, d: Tree, t: Tree, ops: seq<Op<Val>>, vs: seq<Tree>)
    requires |ops| == |vs| && Separate(ops, vs, t) && Held(h0, ops, vs, 0) && Matches(h0, t)
    requires Extends(h0, h) && Is(h, draft, d) && Erase(d) == Erase(t)
    requires Refs(d) !! h0.Keys
    ensures UpTo(h0, h, draft, d, t, ops, vs, 0)
  {
    hide Matches, Distinct, Refs, Erase, Fold;
    RefsAllocated(h0, t);
    HeldRefs(h0, ops, vs, 0);
    KeepHeld(h0, h, d, ops, vs, 0);
    assert PlainAll(ops, vs)[0..] == PlainAll(ops, vs) && PlainAll(ops, vs)[..0] == [];
    assert Fold(Erase(t), []) == Ok(Erase(t)) by { FoldNothing(Erase(t)); }
  }

  lemma FoldNothing(d: Json)
    ensures Fold(d, []) == Ok(d)
  {}

  /** The fold so far, and one operation more. */
  lemma {:induction false} FoldOneMore(d0: Json, plain: seq<Op<Json>>, i: nat, d: Json)
    requires i < |plain| && Fold(d0, plain[..i]) == Ok(d) && !(plain[i].path == "" && !plain[i].Test?)
    ensures Fold(d0, plain[..i + 1]) == JsonPatch.ApplyOne(d, plain[i])
    decreases i
  {
    hide JsonPatch.ApplyOne;
    if i == 0 {
      assert plain[..0] == [] && plain[..1][1..] == [] && plain[..1][0] == plain[0];
    } else {
      assert plain[..i][1..] == plain[1..][..i - 1] && plain[..i + 1][1..] == plain[1..][..i];
      var next := JsonPatch.ApplyOne(d0, plain[0]);
      assert plain[..i][0] == plain[0] && plain[..i + 1][0] == plain[0];
      FoldOneMore(next.value, plain[1..], i - 1, d);
    }
  }

  lemma UpToReady(h0: Cells, h: Cells, draft: Val, d: Tree, t: Tree, ops: seq<Op<Val>>, vs: seq<Tree>, i: nat)
    requires |ops| == |vs| && i < |ops| && UpTo(h0, h, draft, d, t, ops, vs, i)
    ensures Is(h, draft, d) && (HasValue(ops[i]) ==> Is(h, ops[i].value, vs[i]) && Refs(vs[i]) !! Refs(d))
  {
    hide Matches, Distinct, Refs, Erase, Fold;
  }

  lemma FoldSteps(d: Json, plain: seq<Op<Json>>, i: nat)
    requires i < |plain|
    ensures Fold(d, plain[i..]) ==
      if plain[i].path == "" && !plain[i].Test? then Err(PatchError(WholeDocument, ""))
      else
        var next := JsonPatch.ApplyOne(d, plain[i]);
        if next.Err? then Err(next.error) else Fold(next.value, plain[i + 1..])
  {
    hide JsonPatch.ApplyOne;
    assert plain[i..][0] == plain[i] && plain[i..][1..] == plain[i + 1..];
  }

  lemma UpToStops(h0: Cells, h: Cells, draft: Val, d: Tree, t: Tree, ops: seq<Op<Val>>, vs: seq<Tree>, i: nat)
    requires |ops| == |vs| && i < |ops| && UpTo(h0, h, draft, d, t, ops, vs, i) && ops[i].path == "" && !ops[i].Test?
    ensures Matches(h, t) && Untouched(h0, h, t)
    ensures Fold(Erase(t), PlainAll(ops, vs)) == Err(PatchError(WholeDocument, ""))
  {
    hide Matches, Distinct, Refs, Erase, Fold;
    Frame(h0, h, t);
    FoldSteps(Erase(d), PlainAll(ops, vs), i);
  }

  lemma UpToNext(h0: Cells, h: Cells, h': Cells, draft: Val, d: Tree, d': Tree, t: Tree, ops: seq<Op<Val>>, vs: seq<Tree>,
                 i: nat, err: Option<PatchError>)
    requires |ops| == |vs| && i < |ops| && UpTo(h0, h, draft, d, t, ops, vs, i) && !(ops[i].path == "" && !ops[i].Test?)
    requires h.Keys <= h'.Keys && forall r :: r in h && r !in Refs(d) ==> h'[r] == h[r]
    requires var r := JsonPatch.ApplyOne(Erase(d), Plain(ops[i], vs[i]));
      if r.Err? then err == Some(r.error)
      else
        && err == None && Erase(d') == r.value && Is(h', draft, d')
        && forall x <- Refs(d') :: x in Refs(d) || (HasValue(ops[i]) && x in Refs(vs[i])) || x !in h
    ensures if err.Some? then Matches(h', t) && Untouched(h0, h', t) && Fold(Erase(t), PlainAll(ops, vs)) == Err(err.value)
            else UpTo(h0, h', draft, d', t, ops, vs, i + 1)
  {
    hide Matches, Distinct, Refs, Erase, Fold, JsonPatch.ApplyOne, Plain, Separate, Held, Untouched;
    FoldSteps(Erase(d), PlainAll(ops, vs), i);
    PlainPath(ops[i], vs[i]);
    FoldOneMore(Erase(t), PlainAll(ops, vs), i, Erase(d));
    StaysUntouched(h0, h, h', t, d);
    HeldFrom(h, ops, vs, i);
    HeldRefs(h, ops, vs, i + 1);
    KeepHeld(h, h', d, ops, vs, i + 1);
    if err.None? { DraftStaysApart(h, d, d', t, ops, vs, i); }
  }

  lemma StaysUntouched(h0: Cells, h: Cells, h': Cells, t: Tree, d: Tree)
    requires Matches(h0, t) && Untouched(h0, h, t) && Refs(d) !! Refs(t)
    requires h.Keys <= h'.Keys && forall r :: r in h && r !in Refs(d) ==> h'[r] == h[r]
    ensures Untouched(h0, h', t) && Matches(h', t) && Refs(t) <= h.Keys
  {
    hide Matches, Refs;
    Frame(h0, h', t);
  }

  lemma HeldFrom(h: Cells, ops: seq<Op<Val>>, vs: seq<Tree>, i: nat)
    requires |ops| == |vs| && i < |ops| && Held(h, ops, vs, i)
    ensures Held(h, ops, vs, i + 1)
  {}

  lemma DraftStaysApart(h: Cells, d: Tree, d': Tree, t: Tree, ops: seq<Op<Val>>, vs: seq<Tree>, i: nat)
    requires |ops| == |vs| && i < |ops| && Separate(ops, vs, t) && Held(h, ops, vs, i + 1)
    requires Refs(d) !! Refs(t) && Refs(t) <= h.Keys
    requires forall j :: i <= j < |ops| && HasValue(ops[j]) ==> Refs(vs[j]) !! Refs(d)
    requires forall x <- Refs(d') :: x in Refs(d) || (HasValue(ops[i]) && x in Refs(vs[i])) || x !in h
    ensures Refs(d') !! Refs(t)
    ensures forall j :: i + 1 <= j < |ops| && HasValue(ops[j]) ==> Refs(vs[j]) !! Refs(d')
  {
    hide Refs;
    HeldRefs(h, ops, vs, i + 1);
    forall j | i + 1 <= j < |ops| && HasValue(ops[j]) ensures Refs(vs[j]) !! Refs(d') {
      forall x | x in Refs(d') ensures x !in Refs(vs[j]) {}
    }
  }

  lemma PlainPath(op: Op<Val>, v: Tree)
    ensures Plain(op, v).path == op.path && (Plain(op, v).Test? <==> op.Test?)
  {}

  lemma UpToEnds(h0: Cells, h: Cells, draft: Val, d: Tree, t: Tree, ops: seq<Op<Val>>, vs: seq<Tree>)
    requires |ops| == |vs| && UpTo(h0, h, draft, d, t, ops, vs, |ops|)
    ensures Matches(h, t) && Untouched(h0, h, t) && Is(h, draft, d) && Refs(d) !! Refs(t)
    ensures Fold(Erase(t), PlainAll(ops, vs)) == Ok(Erase(d))
  {
    hide Matches, Distinct, Refs, Erase;
    Frame(h0, h, t);
    assert PlainAll(ops, vs)[|ops|..] == [];
  }

  /** Some test ran out of stack, on a value that nests that deep. */
  ghost predicate SomeExhausted(ops: seq<Op<Val>>, vs: seq<Tree>, stack: nat, a: After)
    requires |ops| == |vs|
  {
    exists i :: 0 <= i < |ops| && Exhausted(ops[i], vs[i], stack, a)
  }

  /** Some move of the document into itself went through. */
  ghost predicate SomeSwallowed(t: Tree, ops: seq<Op<Val>>, vs: seq<Tree>)
    requires |ops| == |vs|
  {
    exists i :: 0 <= i < |ops| && SwallowedAt(t, ops, vs, i)
  }

  ghost predicate SwallowedAt(t: Tree, ops: seq<Op<Val>>, vs: seq<Tree>, i: nat)
    requires |ops| == |vs| && i < |ops|
  {
    Swallowing(ops[i]) && Fold(Erase(t), PlainAll(ops, vs)[..i + 1]).Ok?
  }

  /** One operation of the patch: the rest of the fold is ahead, or it is over. */
  ghost predicate Advances(h0: Cells, draft: Val, t: Tree, ops: seq<Op<Val>>, vs: seq<Tree>, i: nat, stack: nat, next: After, d': Tree)
    requires |ops| == |vs| && i < |ops|
  {
    if next.error.None? then UpTo(h0, next.cells, draft, d', t, ops, vs, i + 1) || SwallowedAt(t, ops, vs, i)
    else Exhausted(ops[i], vs[i], stack, next) || Fold(Erase(t), PlainAll(ops, vs)) == Err(next.error.value)
  }

  lemma OneFollows(h0: Cells, h: Cells, draft: Val, d: Tree, t: Tree, ops: seq<Op<Val>>, vs: seq<Tree>, i: nat,
                   stack: nat, next: After) returns (d': Tree)
    requires |ops| == |vs| && i < |ops| && UpTo(h0, h, draft, d, t, ops, vs, i)
    requires StepTo(h, draft, ops[i], stack, next) && !(ops[i].path == "" && !ops[i].Test?)
    ensures Advances(h0, draft, t, ops, vs, i, stack, next, d')
  {
    hide Matches, Distinct, Refs, Erase, Fold, StepTo, UpTo, Comes, Untouched, Plain, Exhausted, Swallowing;
    UpToReady(h0, h, draft, d, t, ops, vs, i);
    d' := StepFollows(h, draft, ops[i], stack, next, d, vs[i]);
    if Exhausted(ops[i], vs[i], stack, next) {
      ExhaustedFails(ops[i], vs[i], stack, next);
    } else {
      ComesAt(h, draft, ops[i], d, vs[i], next, d');
      if Swallowing(ops[i]) && next.error.None? {
        UpToSwallows(h0, h, draft, d, t, ops, vs, i);
      } else {
        UpToNext(h0, h, next.cells, draft, d, d', t, ops, vs, i, next.error);
      }
    }
  }

  lemma UpToSwallows(h0: Cells, h: Cells, draft: Val, d: Tree, t: Tree, ops: seq<Op<Val>>, vs: seq<Tree>, i: nat)
    requires |ops| == |vs| && i < |ops| && UpTo(h0, h, draft, d, t, ops, vs, i) && !(ops[i].path == "" && !ops[i].Test?)
    requires JsonPatch.ApplyOne(Erase(d), Plain(ops[i], vs[i])).Ok?
    ensures Fold(Erase(t), PlainAll(ops, vs)[..i + 1]).Ok?
  {
    hide Matches, Distinct, Refs, Erase, Fold, JsonPatch.ApplyOne, Plain, Separate, Held, Untouched;
    PlainPath(ops[i], vs[i]);
    FoldOneMore(Erase(t), PlainAll(ops, vs), i, Erase(d));
  }

  lemma {:induction false} RunFollows(h0: Cells, h: Cells, draft: Val, d: Tree, t: Tree, ops: seq<Op<Val>>, vs: seq<Tree>, i: nat,
                                      stack: nat, a: After) returns (result: Tree)
    requires |ops| == |vs| && i <= |ops| && UpTo(h0, h, draft, d, t, ops, vs, i) && RunTo(h, draft, ops[i..], stack, a)
    ensures Outcome(draft, t, ops, vs, stack, a, result)
    decreases |ops| - i
  {
    hide Matches, Distinct, Refs, Erase, Fold, StepTo, UpTo, Untouched, Exhausted, PlainAll, SwallowedAt;
    result := d;
    if i == |ops| {
      UpToEnds(h0, h, draft, d, t, ops, vs);
    } else {
      assert ops[i..][0] == ops[i] && ops[i..][1..] == ops[i + 1..];
      if ops[i].path == "" && !ops[i].Test? {
        UpToStops(h0, h, draft, d, t, ops, vs, i);
      } else {
        var next :| StepTo(h, draft, ops[i], stack, next)
          && if next.error.Some? then a == next else RunTo(next.cells, draft, ops[i + 1..], stack, a);
        var d' := OneFollows(h0, h, draft, d, t, ops, vs, i, stack, next);
        if next.error.None? && UpTo(h0, next.cells, draft, d', t, ops, vs, i + 1) {
          result := RunFollows(h0, next.cells, draft, d', t, ops, vs, i + 1, stack, a);
        }
      }
    }
  }

  lemma ExhaustedFails(op: Op<Val>, v: Tree, stack: nat, a: After)
    requires Exhausted(op, v, stack, a)
    ensures a.error.Some?
  {}

  lemma ComesAt(h: Cells, doc: Val, op: Op<Val>, t: Tree, v: Tree, a: After, t': Tree)
    requires Comes(h, doc, op, t, v, a, t')
    ensures var r := JsonPatch.ApplyOne(Erase(t), Plain(op, v));
      if r.Err? then a.error == Some(r.error)
      else
        && a.error == None
        && (!Swallowing(op) ==>
              && Erase(t') == r.value && Is(a.cells, doc, t')
              && forall x <- Refs(t') :: x in Refs(t) || (HasValue(op) && x in Refs(v)) || x !in h)
  {}

  /** What a patch has come to: the fold's first failure or its document, unless a test ran out of
      stack or a move of the document into itself went through. */
  ghost predicate Outcome(root: Val, t: Tree, ops: seq<Op<Val>>, vs: seq<Tree>, stack: nat, a: After, result: Tree)
    requires |ops| == |vs|
  {
    || SomeExhausted(ops, vs, stack, a)
    || SomeSwallowed(t, ops, vs)
    || var spec := Fold(Erase(t), PlainAll(ops, vs));
       if spec.Err? then a.error == Some(spec.error)
       else a.error == None && Is(a.cells, root, result) && Erase(result) == spec.value && Refs(result) !! Refs(t)
  }

  ghost function Inserted(ops: seq<Op<Val>>, vs: seq<Tree>): set<nat>
    requires |ops| == |vs|
  {
    set i, r | 0 <= i < |ops| && HasValue(ops[i]) && r in Refs(vs[i]) :: r
  }

  /** The values' own cells are a region, and the document has none of them. */
  lemma ValuesAreContained(h: Cells, ops: seq<Op<Val>>, vs: seq<Tree>, t: Tree)
    requires |ops| == |vs| && Separate(ops, vs, t) && Held(h, ops, vs, 0)
    ensures SelfContained(h, Inserted(ops, vs)) && Inserted(ops, vs) !! Refs(t)
    ensures forall op <- ops :: op.Add? || op.Put? ==> Within(op.value, Inserted(ops, vs))
  {
    hide Refs, Matches, Distinct, CellWithin;
    var region := Inserted(ops, vs);
    forall i | 0 <= i < |ops| && HasValue(ops[i])
      ensures SelfContained(h, Refs(vs[i])) && Within(ops[i].value, Refs(vs[i])) && Refs(vs[i]) <= region
    {
      TreeIsContained(h, vs[i]);
    }
    forall r | r in region ensures r in h && CellWithin(h[r], region) {
      var i :| 0 <= i < |ops| && HasValue(ops[i]) && r in Refs(vs[i]);
      WithinMore(h[r], Refs(vs[i]), region);
    }
  }

  lemma WithinMore(cell: Cell, region: set<nat>, more: set<nat>)
    requires CellWithin(cell, region) && region <= more
    ensures CellWithin(cell, more)
  {}

  /** The document and the values being trees of which no two share a container: the document is
      what it was, and the patch is the fold. */
  lemma PatchIsFold(h: Cells, copied: Cells, m: map<nat, nat>, doc: Val, root: Val, ops: seq<Op<Val>>, stack: nat, a: After,
                    t: Tree, vs: seq<Tree>) returns (result: Tree)
    requires IsCopy(h, copied, m, doc, root) && RunTo(copied, root, ops, stack, a)
    requires |ops| == |vs| && Is(h, doc, t) && Separate(ops, vs, t) && Held(h, ops, vs, 0)
    ensures Outcome(root, t, ops, vs, stack, a, result)
    ensures Is(a.cells, doc, t) && Untouched(h, a.cells, t)
  {
    hide Matches, Distinct, Refs, Erase, RunTo, IsCopy, Renamed, Outcome, Separate, Held, Inserted, Within, SelfContained;
    CopyIsTree(h, copied, m, doc, root, t);
    CopyIsApart(h, copied, m, doc, root);
    FromCopy(h, copied, root, Renamed(t, m), t, ops, vs);
    assert ops[0..] == ops;
    result := RunFollows(h, copied, root, Renamed(t, m), t, ops, vs, 0, stack, a);
    ValuesAreContained(h, ops, vs, t);
    PatchStaysWithin(h, copied, m, doc, root, ops, stack, a, Inserted(ops, vs));
    RefsAllocated(h, t);
    Frame(h, a.cells, t);
  }
}
