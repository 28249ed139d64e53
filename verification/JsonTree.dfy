// JSON values and the edits of evals/corpus/json-patch/patch.ts.
module JsonTree {
  import opened Results
  import opened Digits

  // A container carries a tag: `()` for plain JSON, its heap reference for a value that lives in
  // the heap (JsonHeap.dfy), so that each edit is defined once for both.

  datatype Scalar = Null | Bool(b: bool) | Num(n: int) | Str(s: string)

  datatype Node<A> =
    | Leaf(scalar: Scalar)
    | Arr(tag: A, items: seq<Node<A>>)
    | Obj(tag: A, fields: map<string, Node<A>>)

  type Json = Node<()>

  datatype Fault =
    | NoSuchIndex(segment: string)
    | NoSuchKey(segment: string)
    | IndexOutOfRange(segment: string)
    | NotAContainer
    | TestFailed
    | StackExhausted
    | IntoItself
    | WholeDocument

  datatype Edit<A> = Insert(value: Node<A>) | Replace(value: Node<A>) | Remove

  predicate AllDigits(s: string) {
    forall c <- s :: IsDigit(c)
  }

  /** What is known of `Number`: digits are read as they stand, leading zeros and no digits at all
      included, and "-" is no number. */
  ghost predicate ReadsDigits(number: string -> Option<nat>) {
    number("-") == None && forall s :: AllDigits(s) ==> number(s) == Some(DigitsValue(s))
  }

  function DigitsOnly(s: string): Option<nat> {
    if AllDigits(s) then Some(DigitsValue(s)) else None
  }

  type Numeric = number: string -> Option<nat> | ReadsDigits(number) witness DigitsOnly

  /** JavaScript's `Number`, where it is a nonnegative integer. Which other texts it takes for one
      (signs, decimals, exponents, other bases, white space) is left open: it may be any. */
  const number: Numeric

  function ToIndex(segment: string): (i: Option<nat>)
    ensures AllDigits(segment) ==> i == Some(DigitsValue(segment))
    ensures segment == "-" ==> i == None
  {
    number(segment)
  }

  function Child<A>(n: Node<A>, segment: string): Result<Node<A>, Fault> {
    match n
    case Leaf(_) => Err(NoSuchKey(segment))
    case Arr(_, items) =>
      var i := ToIndex(segment);
      if i.Some? && i.value < |items| then Ok(items[i.value]) else Err(NoSuchIndex(segment))
    case Obj(_, fields) =>
      if segment in fields then Ok(fields[segment]) else Err(NoSuchKey(segment))
  }

  function SetChild<A>(n: Node<A>, segment: string, child: Node<A>): Node<A>
    requires Child(n, segment).Ok?
  {
    match n
    case Arr(tag, items) => Arr(tag, items[ToIndex(segment).value := child])
    case Obj(tag, fields) => Obj(tag, fields[segment := child])
  }

  function Get<A>(n: Node<A>, segments: seq<string>): Result<Node<A>, Fault> {
    if segments == [] then Ok(n)
    else
      var child :- Child(n, segments[0]);
      Get(child, segments[1..])
  }

  /** The edit at one slot of one container. `Replace` is `insertAt(…, replace = true)`: on its
      own it does not look whether the member exists (the operation reads it first). */
  function Rewrite<A>(n: Node<A>, segment: string, e: Edit<A>): Result<Node<A>, Fault> {
    match n
    case Leaf(_) => Err(if e.Remove? then NoSuchKey(segment) else NotAContainer)
    case Arr(tag, items) =>
      var i := Slot(items, segment, e);
      if i.None? then Err(if e.Remove? then NoSuchIndex(segment) else IndexOutOfRange(segment))
      else Ok(Arr(tag, Spliced(items, i.value, e)))
    case Obj(tag, fields) =>
      if !e.Remove? then Ok(Obj(tag, fields[segment := e.value]))
      else if segment in fields then Ok(Obj(tag, fields - {segment}))
      else Err(NoSuchKey(segment))
  }

  /** The array slot an edit acts on: "-" is the end, and the end is a legal place to insert. */
  function Slot<A>(items: seq<Node<A>>, segment: string, e: Edit<A>): (i: Option<nat>)
    ensures i.Some? ==> i.value <= |items| && (e.Remove? ==> i.value < |items|)
  {
    if segment == "-" && !e.Remove? then Some(|items|)
    else
      var i := ToIndex(segment);
      if i.Some? && (i.value < |items| || (e.Insert? && i.value == |items|)) then i else None
  }

  /** `splice(i, replace ? 1 : 0, value)`, `push(value)` or `splice(i, 1)`. */
  function Spliced<A>(items: seq<Node<A>>, i: nat, e: Edit<A>): seq<Node<A>>
    requires i <= |items| && (e.Remove? ==> i < |items|)
  {
    match e
    case Insert(v) => items[..i] + [v] + items[i..]
    case Replace(v) => if i < |items| then items[i := v] else items + [v]
    case Remove => items[..i] + items[i + 1..]
  }

  /** The edit at the location `segments` names. */
  function Update<A>(n: Node<A>, segments: seq<string>, e: Edit<A>): Result<Node<A>, Fault>
    requires segments != []
    decreases |segments|
  {
    if |segments| == 1 then Rewrite(n, segments[0], e)
    else
      var child :- Child(n, segments[0]);
      var edited :- Update(child, segments[1..], e);
      Ok(SetChild(n, segments[0], edited))
  }

  // ---- forgetting the tags ------------------------------------------------------------

  function Erase<A>(n: Node<A>): Json {
    match n
    case Leaf(s) => Leaf(s)
    case Arr(_, items) => Arr((), seq(|items|, i requires 0 <= i < |items| => Erase(items[i])))
    case Obj(_, fields) => Obj((), map k | k in fields :: Erase(fields[k]))
  }

  ghost function EraseAll<A>(items: seq<Node<A>>): seq<Json> {
    seq(|items|, i requires 0 <= i < |items| => Erase(items[i]))
  }

  function EraseEdit<A>(e: Edit<A>): Edit<()> {
    match e
    case Insert(v) => Insert(Erase(v))
    case Replace(v) => Replace(Erase(v))
    case Remove => Remove
  }

  function EraseResult<A>(r: Result<Node<A>, Fault>): Result<Json, Fault> {
    match r
    case Ok(n) => Ok(Erase(n))
    case Err(f) => Err(f)
  }

  lemma ChildErases<A>(n: Node<A>, segment: string)
    ensures Child(Erase(n), segment) == EraseResult(Child(n, segment))
  {}

  lemma {:induction false} GetErases<A>(n: Node<A>, segments: seq<string>)
    ensures Get(Erase(n), segments) == EraseResult(Get(n, segments))
  {
    if segments != [] {
      ChildErases(n, segments[0]);
      var c := Child(n, segments[0]);
      if c.Ok? { GetErases(c.value, segments[1..]); }
    }
  }

  lemma SplicedErases<A>(items: seq<Node<A>>, i: nat, e: Edit<A>)
    requires i <= |items| && (e.Remove? ==> i < |items|)
    ensures EraseAll(Spliced(items, i, e)) == Spliced(EraseAll(items), i, EraseEdit(e))
  {}

  lemma RewriteErases<A>(n: Node<A>, segment: string, e: Edit<A>)
    ensures Rewrite(Erase(n), segment, EraseEdit(e)) == EraseResult(Rewrite(n, segment, e))
  {
    var r, r' := Rewrite(n, segment, e), Rewrite(Erase(n), segment, EraseEdit(e));
    match n
    case Leaf(_) =>
    case Arr(_, items) =>
      if r.Ok? {
        var i := Slot(items, segment, e).value;
        SplicedErases(items, i, e);
      }
    case Obj(_, fields) => FieldsErase(n, segment, e);
  }

  lemma FieldsErase<A>(n: Node<A>, segment: string, e: Edit<A>)
    requires n.Obj?
    ensures Rewrite(Erase(n), segment, EraseEdit(e)) == EraseResult(Rewrite(n, segment, e))
  {
    var r, r' := Rewrite(n, segment, e), Rewrite(Erase(n), segment, EraseEdit(e));
    if r.Ok? { assert Erase(r.value).fields == r'.value.fields; }
  }

  /** Editing a tagged tree and forgetting the tags commute. */
  lemma {:induction false} UpdateErases<A>(n: Node<A>, segments: seq<string>, e: Edit<A>)
    requires segments != []
    ensures Update(Erase(n), segments, EraseEdit(e)) == EraseResult(Update(n, segments, e))
    decreases |segments|
  {
    if |segments| == 1 {
      RewriteErases(n, segments[0], e);
    } else {
      ChildErases(n, segments[0]);
      var c := Child(n, segments[0]);
      if c.Ok? {
        UpdateErases(c.value, segments[1..], e);
        var edited := Update(c.value, segments[1..], e);
        if edited.Ok? {
          assert Erase(SetChild(n, segments[0], edited.value)) == SetChild(Erase(n), segments[0], Erase(edited.value));
        }
      }
    }
  }
}
