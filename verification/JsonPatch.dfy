// The operations of evals/corpus/json-patch/patch.ts, on values.
module JsonPatch {
  import opened Results
  import opened Digits
  import opened Pointer
  import opened JsonTree

  // The six operations of RFC 6902 are a fold over JSON values; JsonFold.dfy proves that the
  // draft-mutating code computes this fold.

  /** `V` is a JSON value here and a heap value in JsonHeap. */
  datatype Op<+V> =
    | Add(path: string, value: V)
    | Delete(path: string)
    | Put(path: string, value: V)
    | Move(from: Option<string>, path: string)
    | Copy(from: Option<string>, path: string)
    | Test(path: string, value: V)
  {
    /** `op.from ?? ""` */
    function Source(): string
      requires Move? || Copy?
    {
      if from.Some? then from.value else ""
    }
  }

  datatype PatchError = PatchError(fault: Fault, path: string)

  function At(r: Result<Json, Fault>, path: string): Result<Json, PatchError> {
    match r
    case Ok(j) => Ok(j)
    case Err(f) => Err(PatchError(f, path))
  }

  function Read(doc: Json, path: string): Result<Json, PatchError> {
    At(Get(doc, ParsePointer(path)), path)
  }

  /** `segments[segments.length - 1] ?? ""`: a pointer that is neither empty nor "/"-led has no
      segments, and then the edit lands on the key "" of the root. */
  function EditPath(path: string): (segments: seq<string>)
    ensures segments != []
  {
    var segments := ParsePointer(path);
    if segments == [] then [""] else segments
  }

  function Write(doc: Json, path: string, e: Edit<()>): Result<Json, PatchError> {
    At(Update(doc, EditPath(path), e), path)
  }

  function ApplyOne(doc: Json, op: Op<Json>): Result<Json, PatchError> {
    match op
    case Add(path, value) => Write(doc, path, Insert(value))
    case Delete(path) => Write(doc, path, Remove)
    case Put(path, value) =>
      var _ :- Read(doc, path);
      Write(doc, path, Replace(value))
    case Test(path, value) =>
      var found :- Read(doc, path);
      if found == value then Ok(doc) else Err(PatchError(TestFailed, path))
    case Move(_, path) =>
      var from := op.Source();
      if IsInside(from, path) then Err(PatchError(IntoItself, path))
      else
        var value :- Read(doc, from);
        var without :- Write(doc, from, Remove);
        Write(without, path, Insert(value))
    case Copy(_, path) =>
      var value :- Read(doc, op.Source());
      Write(doc, path, Insert(value))
  }

  /** All or nothing: the first failing operation is the answer. */
  function Fold(doc: Json, ops: seq<Op<Json>>): Result<Json, PatchError>
    decreases |ops|
  {
    if ops == [] then Ok(doc)
    else if ops[0].path == "" && !ops[0].Test? then Err(PatchError(WholeDocument, ""))
    else
      var next :- ApplyOne(doc, ops[0]);
      Fold(next, ops[1..])
  }

  // ---- laws -----------------------------------------------------------------------------

  lemma {:induction false} RemovableIffReadable<A>(j: Node<A>, p: seq<string>)
    requires p != []
    ensures Update(j, p, Remove).Ok? <==> Get(j, p).Ok?
    ensures Update(j, p, Remove).Err? ==> Get(j, p) == Err(Update(j, p, Remove).error)
    decreases |p|
  {
    if |p| == 1 {
      assert p[1..] == [];
    } else {
      var c := Child(j, p[0]);
      if c.Ok? { RemovableIffReadable(c.value, p[1..]); }
    }
  }

  lemma ReadBack<A>(j: Node<A>, segment: string, child: Node<A>)
    requires Child(j, segment).Ok?
    ensures Child(SetChild(j, segment, child), segment) == Ok(child)
  {}

  lemma RewriteIsRemoveThenAdd(j: Json, segment: string, value: Json)
    requires Rewrite(j, segment, Remove).Ok?
    ensures Rewrite(j, segment, Replace(value)) == Rewrite(Rewrite(j, segment, Remove).value, segment, Insert(value))
  {
    match j
    case Obj(_, fields) =>
      assert (fields - {segment})[segment := value] == fields[segment := value];
    case Arr(_, items) =>
      var i := ToIndex(segment).value;
      assert segment != "-" by { assert !IsDigit('-') && '-' in "-"; }
      var rest := items[..i] + items[i + 1..];
      assert rest[..i] + [value] + rest[i..] == items[i := value];
  }

  /** Section 4.3: where there is something to remove, replacing is removing and then adding. */
  lemma {:induction false} ReplaceIsRemoveThenAdd(j: Json, p: seq<string>, value: Json)
    requires p != []
    ensures var removed := Update(j, p, Remove);
      removed.Ok? ==> Update(j, p, Replace(value)) == Update(removed.value, p, Insert(value))
    decreases |p|
  {
    hide Child, SetChild, Rewrite;
    if |p| == 1 {
      if Rewrite(j, p[0], Remove).Ok? { RewriteIsRemoveThenAdd(j, p[0], value); }
    } else {
      var c := Child(j, p[0]);
      if c.Ok? {
        ReplaceIsRemoveThenAdd(c.value, p[1..], value);
        var removed := Update(c.value, p[1..], Remove);
        if removed.Ok? {
          var gone, put := SetChild(j, p[0], removed.value), Update(c.value, p[1..], Replace(value));
          ReadBack(j, p[0], removed.value);
          SetTwice(j, p[0], removed.value);
          assert Update(j, p, Remove) == Ok(gone);
          if put.Ok? { assert SetChild(gone, p[0], put.value) == SetChild(j, p[0], put.value); }
        }
      }
    }
  }

  lemma SetTwice<A>(j: Node<A>, segment: string, first: Node<A>)
    requires Child(j, segment).Ok?
    ensures Child(SetChild(j, segment, first), segment).Ok?
    ensures forall second :: SetChild(SetChild(j, segment, first), segment, second) == SetChild(j, segment, second)
  {
    forall second
      ensures SetChild(SetChild(j, segment, first), segment, second) == SetChild(j, segment, second)
    {
      match j
      case Arr(_, items) =>
        var i := ToIndex(segment).value;
        assert items[i := first][i := second] == items[i := second];
      case Obj(_, fields) =>
        assert fields[segment := first][segment := second] == fields[segment := second];
    }
  }
}
