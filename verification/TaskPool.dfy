// task-pool/pool.ts, for every interleaving.
module TaskPool {
  import opened Results
  import opened Lanes
  import opened StableSort

  /** A recorded rejection. */
  datatype Rejection<E> = Rejection(index: nat, error: E)

  /** What a task came to: its value, or the error it rejected with. */
  type Outcome<T, E> = Result<T, E>

  datatype State<T, E> = State(
    count: nat,
    next: nat,
    results: seq<Option<T>>,
    errors: seq<Rejection<E>>,
    lanes: seq<Lane>,
    aborted: bool,
    started: seq<nat>,
    ended: map<nat, Outcome<T, E>>)

  datatype Event<T, E> =
    | Resume(lane: nat)
    | Settle(lane: nat, outcome: Outcome<T, E>)

  function Initial<T, E>(count: nat, limit: nat): State<T, E> {
    State(count, 0, seq(count, _ => None), [], seq(Min(limit, count), _ => AtLoop), false, [], map[])
  }

  predicate Enabled<T, E>(s: State<T, E>, e: Event<T, E>) {
    match e
    case Resume(k) => k < |s.lanes| && s.lanes[k].AtLoop?
    case Settle(k, _) => k < |s.lanes| && s.lanes[k].Busy? && s.lanes[k].index < |s.results|
  }

  /** `next` moves on even when the worker then returns. */
  function Step<T, E>(s: State<T, E>, e: Event<T, E>): State<T, E>
    requires Enabled(s, e)
  {
    match e
    case Resume(k) =>
      if s.next >= s.count || s.aborted then s.(next := s.next + 1, lanes := s.lanes[k := Finished])
      else s.(next := s.next + 1, lanes := s.lanes[k := Busy(s.next)], started := s.started + [s.next])
    case Settle(k, outcome) =>
      var i := s.lanes[k].index;
      var s' := s.(lanes := s.lanes[k := AtLoop], ended := s.ended[i := outcome]);
      match outcome
      case Ok(value) => s'.(results := s.results[i := Some(value)])
      case Err(error) => s'.(errors := s.errors + [Rejection(i, error)], aborted := true)
  }

  function Play<T, E>(count: nat, limit: nat, events: seq<Event<T, E>>): State<T, E>
    decreases |events|
  {
    if events == [] then Initial(count, limit)
    else
      var s := Play(count, limit, events[..|events| - 1]);
      var e := events[|events| - 1];
      if Enabled(s, e) then Step(s, e) else s
  }

  // ---- the invariant ----------------------------------------------------------------------------

  /** Exactly the rejected tasks that have ended are recorded, each once. */
  ghost predicate RecordsRejections<T, E>(errors: seq<Rejection<E>>, ended: map<nat, Outcome<T, E>>) {
    && (forall r <- errors :: r.index in ended && ended[r.index] == Err(r.error))
    && (forall i :: i in ended && ended[i].Err? ==> Rejection(i, ended[i].error) in errors)
    && (forall j, k :: 0 <= j < k < |errors| ==> errors[j].index != errors[k].index)
  }

  ghost predicate Invariant<T, E>(s: State<T, E>) {
    && |s.started| <= s.count && |s.started| <= s.next
    && (forall i :: 0 <= i < |s.started| ==> s.started[i] == i)
    && (s.next < s.count && !s.aborted ==> s.next == |s.started|)
    && (s.next >= s.count && !s.aborted ==> |s.started| == s.count)
    && Exclusive(s.lanes)
    && (forall i :: i in InFlight(s.lanes) <==> 0 <= i < |s.started| && i !in s.ended)
    && (forall i :: i in s.ended ==> i < |s.started|)
    && |s.results| == s.count
    && (forall i :: i in s.ended && s.ended[i].Ok? ==> s.results[i] == Some(s.ended[i].value))
    && RecordsRejections(s.errors, s.ended)
    && (s.aborted <==> s.errors != [])
    && (forall k :: 0 <= k < |s.lanes| && s.lanes[k].Finished? ==> s.next > s.count || s.aborted)
  }

  lemma InvariantStep<T, E>(s: State<T, E>, e: Event<T, E>)
    requires Invariant(s) && Enabled(s, e)
    ensures Invariant(Step(s, e))
    ensures Step(s, e).count == s.count && |Step(s, e).lanes| == |s.lanes|
    // no task starts after the first rejection is recorded
    ensures s.errors != [] ==> Step(s, e).started == s.started
  {
    match e
    case Resume(k) =>
      if s.next >= s.count || s.aborted {
        LaneMoved(s.lanes, k, Finished);
      } else {
        assert s.next !in InFlight(s.lanes);
        LaneMoved(s.lanes, k, Busy(s.next));
      }
    case Settle(k, outcome) =>
      var i := s.lanes[k].index;
      assert i in InFlight(s.lanes);
      LaneMoved(s.lanes, k, AtLoop);
      Recorded(s.errors, s.ended, i, outcome);
  }

  lemma Recorded<T, E>(errors: seq<Rejection<E>>, ended: map<nat, Outcome<T, E>>, i: nat, outcome: Outcome<T, E>)
    requires RecordsRejections(errors, ended) && i !in ended
    ensures RecordsRejections(if outcome.Err? then errors + [Rejection(i, outcome.error)] else errors, ended[i := outcome])
  {
    if outcome.Err? {
      var errors' := errors + [Rejection(i, outcome.error)];
      assert errors'[|errors|] == Rejection(i, outcome.error);
      forall j | j in ended && ended[j].Err? ensures Rejection(j, ended[j].error) in errors' {
        assert Rejection(j, ended[j].error) in errors;
      }
      assert forall k :: 0 <= k < |errors| ==> errors[k] in errors;
    }
  }

  lemma {:induction false} InvariantAlways<T, E>(count: nat, limit: nat, events: seq<Event<T, E>>)
    ensures var s := Play(count, limit, events); Invariant(s) && s.count == count && |s.lanes| == Min(limit, count)
    decreases |events|
  {
    hide RecordsRejections;
    if events != [] {
      InvariantAlways(count, limit, events[..|events| - 1]);
      var s, e := Play(count, limit, events[..|events| - 1]), events[|events| - 1];
      if Enabled(s, e) { InvariantStep(s, e); }
    } else {
      var s := Initial<T, E>(count, limit);
      assert InFlight(s.lanes) == {};
      assert RecordsRejections(s.errors, s.ended) by { NothingRecorded<T, E>(); }
    }
  }

  lemma NothingRecorded<T, E>()
    ensures RecordsRejections<T, E>([], map[])
  {}

  /** At most `limit` tasks are in flight, in every state of every run. */
  lemma ConcurrencyBound<T, E>(count: nat, limit: nat, events: seq<Event<T, E>>)
    ensures var working := |InFlight(Play(count, limit, events).lanes)|; working <= limit && working <= count
  {
    InvariantAlways(count, limit, events);
    NoMoreThanLanes(Play(count, limit, events).lanes);
  }

  /** And just as many are, whenever every worker waits for its task or has stopped while there are tasks
      left and none has been rejected. */
  lemma NoWorkerIdles<T, E>(count: nat, limit: nat, events: seq<Event<T, E>>)
    ensures var s := Play(count, limit, events);
      |s.started| < count && !s.aborted && (forall k :: 0 <= k < |s.lanes| ==> !s.lanes[k].AtLoop?) ==>
        |InFlight(s.lanes)| == if limit < count then limit else count
  {
    InvariantAlways(count, limit, events);
    var s := Play(count, limit, events);
    if |s.started| < count && !s.aborted && forall k :: 0 <= k < |s.lanes| ==> !s.lanes[k].AtLoop? {
      AsManyAsLanes(s.lanes);
    }
  }

  // ---- the end ------------------------------------------------------------------------------------

  predicate Over<T, E>(s: State<T, E>) {
    forall k :: 0 <= k < |s.lanes| ==> s.lanes[k].Finished?
  }

  /** `(a, b) => a.index - b.index` */
  function ByIndex<E>(): (Rejection<E>, Rejection<E>) -> int {
    (a: Rejection<E>, b: Rejection<E>) => a.index - b.index
  }

  /** Resolved with one value per task, or rejected with an aggregate of errors. */
  datatype Verdict<T, E> = Resolved(values: seq<Option<T>>) | Rejected(errors: seq<Rejection<E>>)

  function Conclude<T, E>(s: State<T, E>): Verdict<T, E> {
    if |s.errors| > 0 then Rejected(Sorted(ByIndex(), s.errors)) else Resolved(s.results)
  }

  lemma ByIndexPreorders<E(!new)>(dom: set<Rejection<E>>)
    ensures Preorders(ByIndex<E>(), dom)
  {}

  lemma {:induction false} SortedRejections<T, E(!new)>(errors: seq<Rejection<E>>, ended: map<nat, Outcome<T, E>>)
    requires RecordsRejections(errors, ended)
    ensures var r := Sorted(ByIndex(), errors);
      && (forall j, k :: 0 <= j < k < |r| ==> r[j].index < r[k].index)
      && (forall i, error :: Rejection(i, error) in r <==> i in ended && ended[i] == Err(error))
  {
    var dom := set r | r in errors;
    var r := Sorted(ByIndex(), errors);
    ByIndexPreorders(dom);
    SortedOrders(ByIndex(), dom, errors);
    SortedPermutes(ByIndex(), errors);
    forall i, error ensures Rejection(i, error) in r <==> i in ended && ended[i] == Err(error) {
      var x := Rejection(i, error);
      assert x in r <==> x in multiset(r);
      assert x in errors <==> x in multiset(errors);
    }
    forall j, k | 0 <= j < k < |r| ensures r[j].index < r[k].index {
      assert ByIndex()(r[j], r[k]) <= 0;
      if r[j].index == r[k].index {
        SameIndexTwice(errors, ended, r, j, k);
      }
    }
  }

  /** Sorting does not bring two rejections of one task about. */
  lemma SameIndexTwice<T, E>(errors: seq<Rejection<E>>, ended: map<nat, Outcome<T, E>>, r: seq<Rejection<E>>, j: nat, k: nat)
    requires RecordsRejections(errors, ended) && multiset(r) == multiset(errors) && j < k < |r|
    ensures r[j].index != r[k].index
  {
    Member(r, errors, r[j]);
    Member(r, errors, r[k]);
    if r[j].index == r[k].index {
      var x := r[j];
      assert r[k] == x;
      Twice(r, j, k);
      OnceOnly(errors, x);
    }
  }

  lemma Twice<A>(r: seq<A>, j: nat, k: nat)
    requires j < k < |r| && r[j] == r[k]
    ensures multiset(r)[r[j]] >= 2
  {
    assert r == r[..k] + r[k..];
    assert r[j] in r[..k] && r[k] in r[k..] by { assert r[..k][j] == r[j] && r[k..][0] == r[k]; }
    assert r[j] in multiset(r[..k]) && r[j] in multiset(r[k..]);
  }

  lemma {:induction false} OnceOnly<E>(errors: seq<Rejection<E>>, x: Rejection<E>)
    requires forall j, k :: 0 <= j < k < |errors| ==> errors[j].index != errors[k].index
    ensures multiset(errors)[x] <= 1
  {
    if errors != [] {
      OnceOnly(errors[1..], x);
      assert errors == [errors[0]] + errors[1..];
      forall k | 0 <= k < |errors| - 1 ensures errors[1..][k] != errors[0] {
        assert errors[0].index != errors[k + 1].index;
      }
    }
  }

  /** The pool resolves exactly when every task ran and succeeded, with the values in input
      order; otherwise it rejects with exactly the errors of the started tasks that rejected, in
      increasing index order. All started tasks have settled either way, and they are a prefix. */
  lemma AtTheEnd<T, E(!new)>(count: nat, limit: nat, events: seq<Event<T, E>>)
    requires limit >= 1 && Over(Play(count, limit, events))
    ensures var s := Play(count, limit, events);
      && |s.started| <= count
      && (forall i :: i in s.ended <==> 0 <= i < |s.started|)
      && (Conclude(s).Resolved? <==> |s.started| == count && forall i :: 0 <= i < count ==> s.ended[i].Ok?)
      && (Conclude(s).Resolved? ==>
            && |Conclude(s).values| == count
            && forall i :: 0 <= i < count ==> s.ended[i].Ok? && Conclude(s).values[i] == Some(s.ended[i].value))
      && (Conclude(s).Rejected? ==>
            && (forall j, k :: 0 <= j < k < |Conclude(s).errors| ==> Conclude(s).errors[j].index < Conclude(s).errors[k].index)
            && (forall i, error :: Rejection(i, error) in Conclude(s).errors <==> i in s.ended && s.ended[i] == Err(error)))
  {
    InvariantAlways(count, limit, events);
    EndState(Play(count, limit, events));
    SortedRejections(Play(count, limit, events).errors, Play(count, limit, events).ended);
  }

  lemma EndState<T, E>(s: State<T, E>)
    requires Invariant(s) && Over(s) && (s.count == 0 || |s.lanes| > 0)
    ensures forall i :: i in s.ended <==> 0 <= i < |s.started|
    ensures s.errors == [] <==> |s.started| == s.count && forall i :: 0 <= i < s.count ==> s.ended[i].Ok?
    ensures s.errors == [] ==> forall i :: 0 <= i < s.count ==> s.results[i] == Some(s.ended[i].value)
  {
    assert InFlight(s.lanes) == {};
    if s.count > 0 { assert s.lanes[0].Finished?; }
    if s.errors != [] {
      assert s.errors[0] in s.errors;
      assert s.ended[s.errors[0].index].Err?;
    }
  }

  // ---- termination ------------------------------------------------------------------------------

  function Work<T, E>(s: State<T, E>): nat
    requires |s.started| <= s.count
  {
    2 * (s.count - |s.started|) + LaneWork(s.lanes)
  }

  lemma StepsRunOut<T, E>(s: State<T, E>, e: Event<T, E>)
    requires Invariant(s) && Enabled(s, e)
    ensures |Step(s, e).started| <= s.count && Work(Step(s, e)) < Work(s)
  {
    InvariantStep(s, e);
    WorkUpdated(s.lanes, e.lane, Step(s, e).lanes[e.lane]);
  }

  lemma NotStuck<T, E>(s: State<T, E>, k: nat, outcome: Outcome<T, E>)
    requires Invariant(s) && k < |s.lanes| && !s.lanes[k].Finished?
    ensures Enabled(s, Resume(k)) || Enabled(s, Settle(k, outcome))
  {
    if s.lanes[k].Busy? { assert s.lanes[k].index in InFlight(s.lanes); }
  }

  // ---- the program --------------------------------------------------------------------------------

  class Pool<T, E> {
    const count: nat
    var next: nat
    var results: seq<Option<T>>
    var errors: seq<Rejection<E>>
    var lanes: seq<Lane>
    var aborted: bool
    ghost var started: seq<nat>
    ghost var ended: map<nat, Outcome<T, E>>

    ghost function Now(): State<T, E>
      reads this
    {
      State(count, next, results, errors, lanes, aborted, started, ended)
    }

    constructor (count: nat, limit: nat)
      ensures Now() == Initial(count, limit) && this.count == count
    {
      this.count := count;
      next, errors, aborted, started, ended := 0, [], false, [], map[];
      results := seq(count, _ => None);
      lanes := seq(Min(limit, count), _ => AtLoop);
    }

    /** The head of a worker's loop, up to its next await or its return. */
    method ResumeLane(k: nat)
      requires Enabled(Now(), Resume(k))
      modifies this
      ensures Now() == Step(old(Now()), Resume(k))
    {
      var index := next;
      next := next + 1;
      if index >= count || aborted {
        lanes := lanes[k := Finished];
        return;
      }
      lanes := lanes[k := Busy(index)];
      started := started + [index];
    }

    /** The task's promise settles: store the value, or record the error and abort. */
    method SettleLane(k: nat, outcome: Outcome<T, E>)
      requires Enabled(Now(), Settle(k, outcome))
      modifies this
      ensures Now() == Step(old(Now()), Settle(k, outcome))
    {
      var index := lanes[k].index;
      if outcome.Ok? {
        results := results[index := Some(outcome.value)];
      } else {
        errors := errors + [Rejection(index, outcome.error)];
        aborted := true;
      }
      lanes := lanes[k := AtLoop];
      ended := ended[index := outcome];
    }

    method Turn(k: nat, run: nat -> Outcome<T, E>)
      requires Invariant(Now()) && k < |lanes| && !lanes[k].Finished?
      requires forall i :: i in ended ==> ended[i] == run(i)
      modifies this
      ensures Invariant(Now()) && |lanes| == old(|lanes|)
      ensures forall i :: i in ended ==> ended[i] == run(i)
      ensures |started| <= count && old(|started|) <= count && Work(Now()) < Work(old(Now()))
    {
      hide Invariant, LaneWork;
      ghost var before := Now();
      ghost var outcome0 := run(if lanes[k].Busy? then lanes[k].index else 0);
      NotStuck(before, k, outcome0);
      if lanes[k].AtLoop? {
        ResumeLane(k);
        InvariantStep(before, Resume(k));
        StepsRunOut(before, Resume(k));
      } else {
        var outcome := run(lanes[k].index);
        SettleLane(k, outcome);
        InvariantStep(before, Settle(k, outcome));
        StepsRunOut(before, Settle(k, outcome));
      }
    }
  }

  datatype Answer<T, E> = RangeError | Answer(verdict: Verdict<T, E>)

  /** `pool`: `run(i)` is what task i comes to if it is started; which worker goes next is open. */
  method RunPool<T, E(!new)>(count: nat, limit: real, run: nat -> Outcome<T, E>) returns (r: Answer<T, E>, ghost ran: nat)
    ensures r.RangeError? <==> limit <= 0.0 || limit.Floor as real != limit
    ensures ran <= count
    ensures r.Answer? && r.verdict.Resolved? ==>
      && |r.verdict.values| == count
      && forall i :: 0 <= i < count ==> run(i).Ok? && r.verdict.values[i] == Some(run(i).value)
    ensures r.Answer? && r.verdict.Rejected? ==>
      && (exists i :: 0 <= i < count && run(i).Err?)
      && (forall j, k :: 0 <= j < k < |r.verdict.errors| ==> r.verdict.errors[j].index < r.verdict.errors[k].index)
      && (forall i: nat, error :: Rejection(i, error) in r.verdict.errors <==> 0 <= i < ran && run(i) == Err(error))
  {
    ran := 0;
    if limit.Floor as real != limit || limit <= 0.0 {
      return RangeError, 0;
    }
    var p := new Pool<T, E>(count, limit.Floor);
    InvariantAlways<T, E>(count, limit.Floor, []);
    hide Invariant, LaneWork;
    while exists k :: 0 <= k < |p.lanes| && !p.lanes[k].Finished?
      invariant Invariant(p.Now()) && |p.lanes| == Min(limit.Floor, count) && |p.started| <= count
      invariant forall i :: i in p.ended ==> p.ended[i] == run(i)
      decreases Work(p.Now())
    {
      var k :| 0 <= k < |p.lanes| && !p.lanes[k].Finished?;
      p.Turn(k, run);
    }
    EndState(p.Now());
    InvariantRecords(p.Now());
    SortedRejections(p.errors, p.ended);
    ran := |p.started|;
    r := Answer(if |p.errors| > 0 then Rejected(Sorted(ByIndex(), p.errors)) else Resolved(p.results));
  }

  lemma InvariantRecords<T, E>(s: State<T, E>)
    requires Invariant(s)
    ensures RecordsRejections(s.errors, s.ended) && |s.results| == s.count
    ensures s.errors != [] ==> exists i :: i in s.ended && s.ended[i].Err?
  {
    if s.errors != [] {
      assert s.errors[0] in s.errors;
      assert s.ended[s.errors[0].index].Err?;
    }
  }
}
