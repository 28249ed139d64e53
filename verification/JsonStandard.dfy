// RFC 6902, and patch.ts against it.
module JsonStandard {
  import opened Results
  import opened Digits
  import opened Pointer
  import opened JsonTree
  import opened JsonPatch

  // ---- reading and editing, as the standards have it ------------------------------------------

  /** An array index in section 4 of RFC 6901: "0", or digits that do not begin with one. */
  predicate Canonical(segment: string) {
    segment == "0" || (segment != "" && segment[0] != '0' && AllDigits(segment))
  }

  function Index(segment: string): Option<nat> {
    if Canonical(segment) then Some(DigitsValue(segment)) else None
  }

  function Member(n: Json, segment: string): Option<Json> {
    match n
    case Leaf(_) => None
    case Arr(_, items) =>
      var i := Index(segment);
      if i.Some? && i.value < |items| then Some(items[i.value]) else None
    case Obj(_, fields) => if segment in fields then Some(fields[segment]) else None
  }

  function WithMember(n: Json, segment: string, member: Json): Json
    requires Member(n, segment).Some?
  {
    match n
    case Arr(tag, items) => Arr(tag, items[Index(segment).value := member])
    case Obj(tag, fields) => Obj(tag, fields[segment := member])
  }

  function AddMember(n: Json, segment: string, value: Json): Option<Json> {
    match n
    case Leaf(_) => None
    case Arr(tag, items) =>
      var i := if segment == "-" then Some(|items|) else Index(segment);
      if i.Some? && i.value <= |items| then Some(Arr(tag, items[..i.value] + [value] + items[i.value..])) else None
    case Obj(tag, fields) => Some(Obj(tag, fields[segment := value]))
  }

  function DropMember(n: Json, segment: string): Option<Json> {
    if Member(n, segment).None? then None
    else
      match n
      case Arr(tag, items) => Some(Arr(tag, items[..Index(segment).value] + items[Index(segment).value + 1..]))
      case Obj(tag, fields) => Some(Obj(tag, fields - {segment}))
  }

  function ValueAt(n: Json, path: seq<string>): Option<Json> {
    if path == [] then Some(n)
    else
      var member := Member(n, path[0]);
      if member.None? then None else ValueAt(member.value, path[1..])
  }

  /** Section 4.1; the whole document may be the target. */
  function Added(n: Json, path: seq<string>, value: Json): Option<Json>
    decreases |path|
  {
    if path == [] then Some(value)
    else if |path| == 1 then AddMember(n, path[0], value)
    else
      var member := Member(n, path[0]);
      if member.None? then None
      else
        var edited := Added(member.value, path[1..], value);
        if edited.None? then None else Some(WithMember(n, path[0], edited.value))
  }

  /** Section 4.2; nothing is left of a document that is removed whole. */
  function Removed(n: Json, path: seq<string>): Option<Json>
    decreases |path|
  {
    if path == [] then None
    else if |path| == 1 then DropMember(n, path[0])
    else
      var member := Member(n, path[0]);
      if member.None? then None
      else
        var edited := Removed(member.value, path[1..]);
        if edited.None? then None else Some(WithMember(n, path[0], edited.value))
  }

  /** Section 4 of RFC 6902, operation by operation; none where it is an error. */
  function Standard(doc: Json, op: Op<Json>): Option<Json> {
    var path := ParsePointer(op.path);
    match op
    // 4.1
    case Add(_, value) => Added(doc, path, value)
    // 4.2
    case Delete(_) => Removed(doc, path)
    // 4.3: a remove, followed immediately by an add at the same location
    case Put(_, value) =>
      if path == [] then Some(value)
      else
        var removed := Removed(doc, path);
        if removed.None? then None else Added(removed.value, path, value)
    // 4.4: a remove at "from", followed immediately by an add of the value; "from" must not be a
    // proper prefix of the path
    case Move(_, _) =>
      var from := ParsePointer(op.Source());
      var value := ValueAt(doc, from);
      if from < path || value.None? then None
      else if from == [] then value
      else
        var removed := Removed(doc, from);
        if removed.None? then None else Added(removed.value, path, value.value)
    // 4.5
    case Copy(_, _) =>
      var value := ValueAt(doc, ParsePointer(op.Source()));
      if value.None? then None else Added(doc, path, value.value)
    // 4.6
    case Test(_, value) => if ValueAt(doc, path) == Some(value) then Some(doc) else None
  }

  // ---- where the code departs ------------------------------------------------------------------

  predicate ValidOp<V>(op: Op<V>) {
    ValidPointer(op.path) && (op.Move? || op.Copy? ==> ValidPointer(op.Source()))
  }

  /** What the code makes of one operation. */
  function Code(doc: Json, op: Op<Json>): Option<Json> {
    ToOption(Fold(doc, [op]))
  }

  function ToOption<T, E>(r: Result<T, E>): Option<T> {
    match r
    case Ok(x) => Some(x)
    case Err(_) => None
  }

  /** On its way the path meets an array at a segment that `Number` takes for an index and the
      standard does not. */
  predicate Strays(n: Json, path: seq<string>) {
    && path != []
    && ((n.Arr? && ToIndex(path[0]).Some? && !Canonical(path[0]))
        || (Child(n, path[0]).Ok? && Strays(Child(n, path[0]).value, path[1..])))
  }

  predicate Straying(doc: Json, op: Op<Json>) {
    var path := ParsePointer(op.path);
    match op
    case Copy(_, _) => Strays(doc, ParsePointer(op.Source())) || Strays(doc, path)
    case Move(_, _) =>
      var from := ParsePointer(op.Source());
      Strays(doc, from) || (from != [] && Update(doc, from, Remove).Ok? && Strays(Update(doc, from, Remove).value, path))
    case _ => Strays(doc, path)
  }

  /** An edit of the whole document, or a move onto the same location, of a value that is there:
      the code refuses these by their pointers alone. */
  predicate Refused(doc: Json, op: Op<Json>) {
    match op
    case Add(path, _) => path == ""
    case Put(path, _) => path == ""
    case Copy(_, path) => path == "" && ValueAt(doc, ParsePointer(op.Source())).Some?
    case Move(_, path) => (path == "" || path == op.Source()) && ValueAt(doc, ParsePointer(op.Source())).Some?
    case _ => false
  }

  lemma CanonicalIsIndex(segment: string)
    ensures Canonical(segment) ==> ToIndex(segment) == Index(segment)
    ensures ToIndex(segment).None? ==> Index(segment).None?
  {}

  lemma MemberIsChild(n: Json, segment: string)
    ensures n.Arr? && ToIndex(segment).Some? && !Canonical(segment) ==> Member(n, segment).None?
    ensures !(n.Arr? && ToIndex(segment).Some? && !Canonical(segment)) ==> Member(n, segment) == ToOption(Child(n, segment))
  {
    CanonicalIsIndex(segment);
  }

  lemma {:induction false} ReadsAgree(n: Json, path: seq<string>)
    ensures ValueAt(n, path) == if Strays(n, path) then None else ToOption(Get(n, path))
    decreases |path|
  {
    hide Member, Child, Canonical, ToIndex;
    if path != [] {
      MemberIsChild(n, path[0]);
      var c := Child(n, path[0]);
      if c.Ok? { ReadsAgree(c.value, path[1..]); }
    }
  }

  lemma AddMemberAgrees(n: Json, segment: string, value: Json)
    ensures AddMember(n, segment, value) == if Strays(n, [segment]) then None else ToOption(Rewrite(n, segment, Insert(value)))
  {
    CanonicalIsIndex(segment);
    assert !IsDigit('-') && '-' in "-";
    if n.Arr? && segment == "-" { assert n.items[..|n.items|] + [value] + n.items[|n.items|..] == n.items[..|n.items|] + [value] + []; }
  }

  lemma DropMemberAgrees(n: Json, segment: string)
    ensures DropMember(n, segment) == if Strays(n, [segment]) then None else ToOption(Rewrite(n, segment, Remove))
  {
    CanonicalIsIndex(segment);
  }

  lemma WithMemberAgrees(n: Json, segment: string, member: Json)
    requires Member(n, segment).Some?
    ensures Child(n, segment).Ok? && WithMember(n, segment, member) == SetChild(n, segment, member)
  {
    CanonicalIsIndex(segment);
  }

  lemma {:induction false} AddsAgree(n: Json, path: seq<string>, value: Json)
    requires path != []
    ensures Added(n, path, value) == if Strays(n, path) then None else ToOption(Update(n, path, Insert(value)))
    decreases |path|
  {
    hide Member, Child, Canonical, ToIndex, WithMember, SetChild, Rewrite, AddMember;
    if |path| == 1 {
      assert path == [path[0]];
      AddMemberAgrees(n, path[0], value);
    } else {
      MemberIsChild(n, path[0]);
      var c := Child(n, path[0]);
      if c.Ok? {
        AddsAgree(c.value, path[1..], value);
        var edited := Update(c.value, path[1..], Insert(value));
        if Member(n, path[0]).Some? && edited.Ok? { WithMemberAgrees(n, path[0], edited.value); }
      }
    }
  }

  lemma {:induction false} RemovalsAgree(n: Json, path: seq<string>)
    requires path != []
    ensures Removed(n, path) == if Strays(n, path) then None else ToOption(Update(n, path, Remove))
    decreases |path|
  {
    hide Member, Child, Canonical, ToIndex, WithMember, SetChild, Rewrite, DropMember;
    if |path| == 1 {
      assert path == [path[0]];
      DropMemberAgrees(n, path[0]);
    } else {
      MemberIsChild(n, path[0]);
      var c := Child(n, path[0]);
      if c.Ok? {
        RemovalsAgree(c.value, path[1..]);
        var edited := Update(c.value, path[1..], Remove);
        if Member(n, path[0]).Some? && edited.Ok? { WithMemberAgrees(n, path[0], edited.value); }
      }
    }
  }

  /** Removing at a path leaves the containers on its way what they were. */
  lemma {:induction false} StraysAsBefore(n: Json, path: seq<string>)
    requires path != [] && Update(n, path, Remove).Ok?
    ensures Strays(Update(n, path, Remove).value, path) == Strays(n, path)
    decreases |path|
  {
    if |path| == 1 {
      assert path[1..] == [];
    } else {
      var c := Child(n, path[0]).value;
      StraysAsBefore(c, path[1..]);
      ReadBack(n, path[0], Update(c, path[1..], Remove).value);
    }
  }

  /** Putting a value back where it was taken out restores the document. */
  lemma {:induction false} PutBack(n: Json, path: seq<string>)
    requires path != [] && ValueAt(n, path).Some?
    ensures var removed := Removed(n, path);
      removed.Some? && Added(removed.value, path, ValueAt(n, path).value) == Some(n)
    decreases |path|
  {
    if |path| == 1 {
      assert path[1..] == [];
      DropAndAdd(n, path[0]);
    } else {
      var member := Member(n, path[0]).value;
      PutBack(member, path[1..]);
      SetBack(n, path[0], Removed(member, path[1..]).value);
    }
  }

  lemma DropAndAdd(n: Json, segment: string)
    requires Member(n, segment).Some?
    ensures DropMember(n, segment).Some?
    ensures AddMember(DropMember(n, segment).value, segment, Member(n, segment).value) == Some(n)
  {
    match n
    case Arr(_, items) =>
      var i := Index(segment).value;
      var rest := items[..i] + items[i + 1..];
      assert rest[..i] + [items[i]] + rest[i..] == items;
      assert segment != "-" by { assert !IsDigit('-') && '-' in "-"; }
    case Obj(_, fields) => assert (fields - {segment})[segment := fields[segment]] == fields;
  }

  lemma SetBack(n: Json, segment: string, member: Json)
    requires Member(n, segment).Some?
    ensures Member(WithMember(n, segment, member), segment) == Some(member)
    ensures WithMember(WithMember(n, segment, member), segment, Member(n, segment).value) == n
  {
    match n
    case Arr(_, items) =>
      var i := Index(segment).value;
      assert items[i := member][i := items[i]] == items;
    case Obj(_, fields) => assert fields[segment := member][segment := fields[segment]] == fields;
  }

  // ---- the exact condition -----------------------------------------------------------------------

  lemma Rooted(path: string)
    requires ValidPointer(path)
    ensures (path == "" <==> ParsePointer(path) == []) && (path != "" ==> EditPath(path) == ParsePointer(path))
  {
    if path != "" {
      assert path == "/" + path[1..];
      PointerFrom(path[1..]);
    }
  }

  lemma CodeIsStep(doc: Json, op: Op<Json>)
    ensures Code(doc, op) == if op.path == "" && !op.Test? then None else ToOption(ApplyOne(doc, op))
  {
    hide ApplyOne;
    var next := ApplyOne(doc, op);
    assert [op][0] == op && [op][1..] == [];
    if next.Ok? { assert Fold(next.value, []) == Ok(next.value); }
  }

  /** The code's step and the standard's are the same. */
  predicate Agree(doc: Json, op: Op<Json>) {
    Code(doc, op) == Standard(doc, op)
  }

  /** There is a container to insert into, and if it is an array the index is within it. */
  predicate CanInsert(n: Json, path: seq<string>)
    decreases |path|
  {
    if path == [] then false
    else if |path| == 1 then
      n.Obj? || (n.Arr? && (path[0] == "-" || (ToIndex(path[0]).Some? && ToIndex(path[0]).value <= |n.items|)))
    else Child(n, path[0]).Ok? && CanInsert(Child(n, path[0]).value, path[1..])
  }

  /** What the code looks for before it edits: everything the operation names is there. */
  predicate Goes(doc: Json, op: Op<Json>) {
    var path := ParsePointer(op.path);
    match op
    case Test(_, value) => Get(doc, path) == Ok(value)
    case Add(_, _) => CanInsert(doc, path)
    case Delete(_) => path != [] && Get(doc, path).Ok?
    case Put(_, _) => path != [] && Get(doc, path).Ok?
    case Copy(_, _) => Get(doc, ParsePointer(op.Source())).Ok? && CanInsert(doc, path)
    case Move(_, _) =>
      var from := ParsePointer(op.Source());
      && !(from <= path) && Update(doc, from, Remove).Ok?
      && CanInsert(Update(doc, from, Remove).value, path)
  }

  lemma {:induction false} InsertsExactly(n: Json, path: seq<string>, value: Json)
    requires path != []
    ensures Update(n, path, Insert(value)).Ok? <==> CanInsert(n, path)
    decreases |path|
  {
    if |path| > 1 && Child(n, path[0]).Ok? { InsertsExactly(Child(n, path[0]).value, path[1..], value); }
  }

  lemma {:induction false} ReplacesExactly(n: Json, path: seq<string>, value: Json)
    requires path != [] && Get(n, path).Ok?
    ensures Update(n, path, Replace(value)).Ok?
    decreases |path|
  {
    if |path| > 1 {
      ReplacesExactly(Child(n, path[0]).value, path[1..], value);
    } else {
      assert path[1..] == [];
    }
  }

  /** An operation goes through exactly if all it names is there. */
  lemma GoesExactly(doc: Json, op: Op<Json>)
    requires ValidOp(op)
    ensures Goes(doc, op) <==> Code(doc, op).Some?
  {
    hide Get, Update, CanInsert, ParsePointer, EditPath, ValidPointer, IsInside;
    var path := ParsePointer(op.path);
    CodeIsStep(doc, op);
    Rooted(op.path);
    NowhereToInsert(doc);
    if path != [] {
      match op {
        case Add(_, value) => InsertsExactly(doc, path, value);
        case Delete(_) => RemovableIffReadable(doc, path);
        case Put(_, value) => if Get(doc, path).Ok? { ReplacesExactly(doc, path, value); }
        case Copy(_, _) =>
          var value := Get(doc, ParsePointer(op.Source()));
          if value.Ok? { InsertsExactly(doc, path, value.value); }
        case Move(_, _) =>
          var from := ParsePointer(op.Source());
          Rooted(op.Source());
          MoveGuardIsExact(op.Source(), op.path);
          if !(from <= path) {
            RemovableIffReadable(doc, from);
            var removed := Update(doc, from, Remove);
            if removed.Ok? { InsertsExactly(removed.value, path, Get(doc, from).value); }
          }
        case Test(_, _) =>
      }
    } else if op.Move? && ParsePointer(op.Source()) != [] && Update(doc, ParsePointer(op.Source()), Remove).Ok? {
      NowhereToInsert(Update(doc, ParsePointer(op.Source()), Remove).value);
    }
  }

  lemma NowhereToInsert(n: Json)
    ensures !CanInsert(n, [])
  {}

  lemma EditsAgree(doc: Json, op: Op<Json>)
    requires ValidOp(op) && (op.Add? || op.Delete? || op.Test?)
    ensures Agree(doc, op) <==> !Refused(doc, op) && !(Straying(doc, op) && Code(doc, op).Some?)
  {
    hide Added, Removed, ValueAt, Update, Get, ParsePointer, EditPath, ValidPointer, Strays;
    var path := ParsePointer(op.path);
    CodeIsStep(doc, op);
    Rooted(op.path);
    match op {
      case Add(_, value) => if op.path != "" { AddsAgree(doc, path, value); } else { AddedWhole(doc, value); }
      case Delete(_) => if op.path != "" { RemovalsAgree(doc, path); } else { RemovedWhole(doc); }
      case Test(_, value) => ReadsAgree(doc, path);
    }
  }

  lemma AddedWhole(doc: Json, value: Json)
    ensures Added(doc, [], value) == Some(value)
  {}

  lemma RemovedWhole(doc: Json)
    ensures Removed(doc, []) == None
  {}

  lemma PutAgrees(doc: Json, op: Op<Json>)
    requires ValidOp(op) && op.Put?
    ensures Agree(doc, op) <==> !Refused(doc, op) && !(Straying(doc, op) && Code(doc, op).Some?)
  {
    hide Added, Removed, Update, Get, ParsePointer, EditPath, ValidPointer, Strays;
    var path := ParsePointer(op.path);
    CodeIsStep(doc, op);
    Rooted(op.path);
    if op.path != "" {
      RemovalsAgree(doc, path);
      RemovableIffReadable(doc, path);
      ReplaceIsRemoveThenAdd(doc, path, op.value);
      var removed := Update(doc, path, Remove);
      if removed.Ok? {
        StraysAsBefore(doc, path);
        AddsAgree(removed.value, path, op.value);
      }
    }
  }

  lemma CopyAgrees(doc: Json, op: Op<Json>)
    requires ValidOp(op) && op.Copy?
    ensures Agree(doc, op) <==> !Refused(doc, op) && !(Straying(doc, op) && Code(doc, op).Some?)
  {
    hide Added, Removed, ValueAt, Update, Get, ParsePointer, EditPath, ValidPointer, Strays;
    var path, from := ParsePointer(op.path), ParsePointer(op.Source());
    CodeIsStep(doc, op);
    Rooted(op.path);
    ReadsAgree(doc, from);
    var value := Get(doc, from);
    if value.Ok? {
      if op.path != "" { AddsAgree(doc, path, value.value); } else { AddedWhole(doc, value.value); }
    }
  }

  lemma MoveAgrees(doc: Json, op: Op<Json>)
    requires ValidOp(op) && op.Move?
    ensures Agree(doc, op) <==> !Refused(doc, op) && !(Straying(doc, op) && Code(doc, op).Some?)
  {
    hide Added, Removed, ValueAt, Update, Get, ParsePointer, EditPath, ValidPointer, Strays, IsInside;
    var path, from := ParsePointer(op.path), ParsePointer(op.Source());
    CodeIsStep(doc, op);
    Rooted(op.path);
    Rooted(op.Source());
    MoveGuardIsExact(op.Source(), op.path);
    ReadsAgree(doc, from);
    if op.path == op.Source() {
      if from != [] && ValueAt(doc, from).Some? { PutBack(doc, from); }
      assert IsInside(op.Source(), op.path) by { InsideItself(op.path); }
    } else if op.path == "" {
      if ValueAt(doc, from).Some? {
        PutBack(doc, from);
        AddedWhole(Removed(doc, from).value, ValueAt(doc, from).value);
      }
    } else if from <= path {
      if from == path { SamePointer(op.path, op.Source()); }
    } else {
      RemovalsAgree(doc, from);
      RemovableIffReadable(doc, from);
      var removed := Update(doc, from, Remove);
      if removed.Ok? { AddsAgree(removed.value, path, Get(doc, from).value); }
    }
  }

  lemma InsideItself(p: string)
    ensures IsInside(p, p)
  {}

  lemma SamePointer(p: string, q: string)
    requires ValidPointer(p) && ValidPointer(q) && ParsePointer(p) == ParsePointer(q)
    ensures p == q
  {
    PrintUndoesParse(p);
    PrintUndoesParse(q);
  }

  /** For every document and every operation with valid pointers, the code takes the standard's
      step exactly unless it refuses the edit by its pointers, or goes through with an index that
      is none in the standard. */
  lemma AgreesExactly(doc: Json, op: Op<Json>)
    requires ValidOp(op)
    ensures Agree(doc, op) <==> !Refused(doc, op) && !(Straying(doc, op) && Goes(doc, op))
  {
    hide Agree, Refused, Straying, Goes;
    GoesExactly(doc, op);
    match op
    case Put(_, _) => PutAgrees(doc, op);
    case Copy(_, _) => CopyAgrees(doc, op);
    case Move(_, _) => MoveAgrees(doc, op);
    case _ => EditsAgree(doc, op);
  }

  // ---- what a caller can tell from the operation alone ------------------------------------------------

  /** No segment is a numeral that the standard does not take for an index. */
  predicate PlainPath(path: seq<string>) {
    forall segment <- path :: ToIndex(segment).Some? ==> Canonical(segment)
  }

  predicate PlainOp(op: Op<Json>) {
    && (op.path == "" ==> op.Test? || op.Delete?)
    && PlainPath(ParsePointer(op.path))
    && (op.Move? ==> op.Source() != op.path)
    && (op.Move? || op.Copy? ==> PlainPath(ParsePointer(op.Source())))
  }

  lemma {:induction false} PlainPathsStay(n: Json, path: seq<string>)
    requires PlainPath(path)
    ensures !Strays(n, path)
  {
    if path != [] {
      assert path[0] in path && forall segment <- path[1..] :: segment in path;
      if Child(n, path[0]).Ok? { PlainPathsStay(Child(n, path[0]).value, path[1..]); }
    }
  }

  /** Such an operation does to every document what the standard says. */
  lemma PlainOpsAgree(doc: Json, op: Op<Json>)
    requires ValidOp(op) && PlainOp(op)
    ensures Agree(doc, op)
  {
    hide Strays, PlainPath, ParsePointer, Agree, Goes;
    AgreesExactly(doc, op);
    PlainPathsStay(doc, ParsePointer(op.path));
    if op.Move? || op.Copy? {
      var from := ParsePointer(op.Source());
      PlainPathsStay(doc, from);
      if op.Move? && from != [] && Update(doc, from, Remove).Ok? {
        PlainPathsStay(Update(doc, from, Remove).value, ParsePointer(op.path));
      }
    }
  }

  /** The standard's steps in turn; the first error ends the whole patch (section 5 of RFC 6902). */
  function StandardFold(doc: Json, ops: seq<Op<Json>>): Option<Json>
    decreases |ops|
  {
    if ops == [] then Some(doc)
    else
      var next := Standard(doc, ops[0]);
      if next.None? then None else StandardFold(next.value, ops[1..])
  }

  /** The code's step at every document on the way is the standard's. */
  predicate StepsAgree(doc: Json, ops: seq<Op<Json>>)
    decreases |ops|
  {
    ops != [] ==>
      && Agree(doc, ops[0])
      && (Code(doc, ops[0]).Some? ==> StepsAgree(Code(doc, ops[0]).value, ops[1..]))
  }

  lemma FoldSteps(doc: Json, ops: seq<Op<Json>>)
    requires ops != []
    ensures ToOption(Fold(doc, ops)) == if Code(doc, ops[0]).None? then None else ToOption(Fold(Code(doc, ops[0]).value, ops[1..]))
  {
    hide ApplyOne;
    CodeIsStep(doc, ops[0]);
  }

  /** Where the steps agree one by one, so do the patches. */
  lemma {:induction false} FoldsAgree(doc: Json, ops: seq<Op<Json>>)
    requires StepsAgree(doc, ops)
    ensures ToOption(Fold(doc, ops)) == StandardFold(doc, ops)
    decreases |ops|
  {
    hide Fold, Code, Standard;
    if ops == [] {
      assert Fold(doc, []) == Ok(doc) by { NothingFolds(doc); }
    } else {
      FoldSteps(doc, ops);
      if Code(doc, ops[0]).Some? { FoldsAgree(Code(doc, ops[0]).value, ops[1..]); }
    }
  }

  lemma NothingFolds(doc: Json)
    ensures Fold(doc, []) == Ok(doc)
  {}

  /** A patch of plain operations does to every document what the standard says: it succeeds when
      that does, with the same document. */
  lemma {:induction false} PlainPatchesAgree(doc: Json, ops: seq<Op<Json>>)
    requires forall op <- ops :: ValidOp(op) && PlainOp(op)
    ensures ToOption(Fold(doc, ops)) == StandardFold(doc, ops)
  {
    hide Fold, StandardFold;
    PlainSteps(doc, ops);
    FoldsAgree(doc, ops);
  }

  lemma {:induction false} PlainSteps(doc: Json, ops: seq<Op<Json>>)
    requires forall op <- ops :: ValidOp(op) && PlainOp(op)
    ensures StepsAgree(doc, ops)
    decreases |ops|
  {
    hide Agree, Code, ValidOp, PlainOp;
    if ops != [] {
      PlainOpsAgree(doc, ops[0]);
      assert forall op <- ops[1..] :: op in ops;
      if Code(doc, ops[0]).Some? { PlainSteps(Code(doc, ops[0]).value, ops[1..]); }
    }
  }

  // ---- one input for each departure -----------------------------------------------------------------------

  lemma OneToken(p: string, token: string)
    requires p == "/" + token && '/' !in token && '~' !in token
    ensures ValidPointer(p) && ParsePointer(p) == [token]
  {
    PointerFrom(token);
    SplitWithoutSlash(token);
    NoEscapes(token);
    assert DecodeAll([token]) == [DecodeSegment(token)];
  }

  lemma {:induction false} NoEscapes(token: string)
    requires '/' !in token && '~' !in token
    ensures ValidSegment(token) && DecodeSegment(token) == token
  {
    NothingReplaced(token, '~', '1', '/');
    NothingReplaced(token, '~', '0', '~');
    if token != "" {
      assert token[0] in token && forall c <- token[1..] :: c in token;
      NoEscapes(token[1..]);
    }
  }

  lemma {:induction false} NothingReplaced(s: string, a: char, b: char, c: char)
    requires a !in s
    ensures ReplacePair(s, a, b, c) == s
  {
    if s != "" {
      assert s[0] in s && forall x <- s[1..] :: x in s;
      NothingReplaced(s[1..], a, b, c);
      assert [s[0]] + s[1..] == s;
    }
  }

  function Nulls(n: nat): Json {
    Arr((), seq(n, _ => Leaf(Null)))
  }

  /** A leading zero and the empty token are indices to the code. */
  lemma OddIndices()
    ensures var op := Op<Json>.Test("/00", Leaf(Null)); Code(Nulls(1), op) == Some(Nulls(1)) && Standard(Nulls(1), op) == None
    ensures var op := Op<Json>.Test("/", Leaf(Null)); Code(Nulls(1), op) == Some(Nulls(1)) && Standard(Nulls(1), op) == None
  {
    hide ParsePointer, Code, Standard;
    OneToken("/00", "00");
    OneToken("/", "");
    assert "00"[..1] == "0" && "0"[..0] == "" && DigitsValue("0") == 0;
    OddIndex("/00", "00");
    OddIndex("/", "");
  }

  lemma OddIndex(p: string, token: string)
    requires ParsePointer(p) == [token] && ToIndex(token).Some? && !Canonical(token)
    ensures var doc := Nulls(ToIndex(token).value + 1);
      var op := Op<Json>.Test(p, Leaf(Null));
      Code(doc, op) == Some(doc) && Standard(doc, op) == None
  {
    hide ParsePointer, Canonical, ToIndex;
    var doc := Nulls(ToIndex(token).value + 1);
    CodeIsStep(doc, Test(p, Leaf(Null)));
    ReadsAgree(doc, [token]);
    assert [token][1..] == [];
    assert Child(doc, token) == Ok(Leaf(Null));
    assert Get(doc, [token]) == Ok(Leaf(Null)) && Strays(doc, [token]);
  }

  /** So it is with every text that `Number` takes for an index and the standard does not, and with
      no other: code and standard agree on a location in every document exactly if its segment is
      none of these. */
  lemma PlainExactly(segment: string)
    ensures (forall doc, value :: Agree(doc, Test(Print([segment]), value)))
       <==> (ToIndex(segment).Some? ==> Canonical(segment))
  {
    hide ParsePointer, Canonical, ToIndex, Code, Standard, Goes, ValidPointer, Print;
    var p := Print([segment]);
    ParseUndoesPrint([segment]);
    if ToIndex(segment).Some? && !Canonical(segment) {
      OddIndex(p, segment);
      assert !Agree(Nulls(ToIndex(segment).value + 1), Test(p, Leaf(Null)));
    } else {
      forall doc: Json, value: Json ensures Agree(doc, Test(p, value)) {
        PlainPathsStay(doc, [segment]);
        AgreesExactly(doc, Test(p, value));
      }
    }
  }

  /** A move onto the same location, and every edit of the whole document but its removal, are
      refused. */
  lemma RefusedEdits()
    ensures var a, doc: Json := Leaf(Null), Obj((), map["k" := Leaf(Null)]);
      && Code(doc, Move(Some("/k"), "/k")) == None && Standard(doc, Move(Some("/k"), "/k")) == Some(doc)
      && Code(doc, Add("", a)) == None && Standard(doc, Add("", a)) == Some(a)
      && Code(doc, Put("", a)) == None && Standard(doc, Put("", a)) == Some(a)
      && Code(doc, Copy(Some("/k"), "")) == None && Standard(doc, Copy(Some("/k"), "")) == Some(a)
      && Code(doc, Move(Some("/k"), "")) == None && Standard(doc, Move(Some("/k"), "")) == Some(a)
  {
    var a, doc: Json := Leaf(Null), Obj((), map["k" := Leaf(Null)]);
    OneToken("/k", "k");
    hide ParsePointer, Fold;
    Rooted("");
    CodeIsStep(doc, Move(Some("/k"), "/k"));
    CodeIsStep(doc, Add("", a));
    CodeIsStep(doc, Put("", a));
    CodeIsStep(doc, Copy(Some("/k"), ""));
    CodeIsStep(doc, Move(Some("/k"), ""));
    assert ["k"][1..] == [];
    assert ValueAt(doc, ["k"]) == Some(a);
    PutBack(doc, ["k"]);
  }
}
