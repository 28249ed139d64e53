// agent-scheduler.ts, for every interleaving.
module AgentScheduler {
  import opened Results
  import opened Lanes

  /** `Math.max(1, Math.floor(value))`; undefined and non-finite values are `None`. */
  function ClampConcurrency(value: Option<real>): (cap: nat)
    ensures cap >= 1
    ensures value.Some? && value.value >= 1.0 ==> cap as real <= value.value < cap as real + 1.0
    ensures value.None? || value.value < 2.0 ==> cap == 1
  {
    if value.Some? && value.value.Floor >= 1 then value.value.Floor else 1
  }

  /** `started` lists the units in the order they were started; `ended` holds what each unit's
      own run came to, none for a throw. */
  datatype State<T> = State(
    count: nat,
    next: nat,
    results: seq<Option<T>>,
    lanes: seq<Lane>,
    aborted: bool,
    started: seq<nat>,
    ended: map<nat, Option<T>>)

  datatype Event<T> =
    | Resume(lane: nat)                        // the loop test, up to the next await
    | Settle(lane: nat, outcome: Option<T>)    // the unit's promise settles; none is a throw
    | Abort

  function LaneCount(count: nat, cap: nat): nat {
    Min(cap, if count > 1 then count else 1)
  }

  function Initial<T>(count: nat, cap: nat): State<T> {
    State(count, 0, seq(count, _ => None), seq(LaneCount(count, cap), _ => AtLoop), false, [], map[])
  }

  predicate Enabled<T>(s: State<T>, e: Event<T>) {
    match e
    case Resume(k) => k < |s.lanes| && s.lanes[k].AtLoop?
    case Settle(k, _) => k < |s.lanes| && s.lanes[k].Busy? && s.lanes[k].index < |s.results|
    case Abort => true
  }

  function Step<T>(s: State<T>, e: Event<T>): State<T>
    requires Enabled(s, e)
  {
    match e
    case Resume(k) =>
      if s.next < s.count && !s.aborted then
        s.(next := s.next + 1, lanes := s.lanes[k := Busy(s.next)], started := s.started + [s.next])
      else s.(lanes := s.lanes[k := Finished])
    case Settle(k, outcome) =>
      var i := s.lanes[k].index;
      s.(results := s.results[i := outcome], lanes := s.lanes[k := AtLoop], ended := s.ended[i := outcome])
    case Abort => s.(aborted := true)
  }

  function Play<T>(count: nat, cap: nat, events: seq<Event<T>>): State<T>
    decreases |events|
  {
    if events == [] then Initial(count, cap)
    else
      var s := Play(count, cap, events[..|events| - 1]);
      var e := events[|events| - 1];
      if Enabled(s, e) then Step(s, e) else s
  }

  // ---- the invariant --------------------------------------------------------------------------

  /** Started units are a prefix, each once; each started unit is in exactly one lane or has
      ended; a slot holds its own unit's outcome and is null until then; lanes stop only when
      there is nothing left or the master has aborted. */
  ghost predicate Invariant<T>(s: State<T>) {
    && s.next == |s.started| <= s.count
    && (forall i :: 0 <= i < s.next ==> s.started[i] == i)
    && Exclusive(s.lanes)
    && (forall i :: (i in InFlight(s.lanes) <==> 0 <= i < s.next && i !in s.ended))
    && (forall i :: i in s.ended ==> i < s.next)
    && |s.results| == s.count
    && (forall i :: 0 <= i < s.count ==> s.results[i] == if i in s.ended then s.ended[i] else None)
    && (forall k :: 0 <= k < |s.lanes| && s.lanes[k].Finished? ==> s.next == s.count || s.aborted)
  }

  lemma InvariantStep<T>(s: State<T>, e: Event<T>)
    requires Invariant(s) && Enabled(s, e)
    ensures Invariant(Step(s, e))
    ensures Step(s, e).count == s.count && |Step(s, e).lanes| == |s.lanes|
    // no unit starts once the master has aborted
    ensures s.aborted ==> Step(s, e).started == s.started && Step(s, e).aborted
  {
    match e
    case Resume(k) =>
      if s.next < s.count && !s.aborted {
        assert s.next !in InFlight(s.lanes);
        LaneMoved(s.lanes, k, Busy(s.next));
      } else {
        LaneMoved(s.lanes, k, Finished);
      }
    case Settle(k, outcome) =>
      assert s.lanes[k].index in InFlight(s.lanes);
      LaneMoved(s.lanes, k, AtLoop);
    case Abort =>
  }

  lemma {:induction false} InvariantAlways<T>(count: nat, cap: nat, events: seq<Event<T>>)
    ensures var s := Play(count, cap, events); Invariant(s) && s.count == count && |s.lanes| == LaneCount(count, cap)
    decreases |events|
  {
    if events != [] {
      InvariantAlways(count, cap, events[..|events| - 1]);
      var s, e := Play(count, cap, events[..|events| - 1]), events[|events| - 1];
      if Enabled(s, e) { InvariantStep(s, e); }
    } else {
      assert InFlight(Initial<T>(count, cap).lanes) == {};
    }
  }

  /** At most min(cap, n) units are in flight, in every state of every run. */
  lemma ConcurrencyBound<T>(count: nat, cap: nat, events: seq<Event<T>>)
    requires cap >= 1
    ensures var working := |InFlight(Play(count, cap, events).lanes)|; working <= cap && working <= count
  {
    InvariantAlways(count, cap, events);
    BoundNow(Play(count, cap, events));
  }

  /** And just as many are, whenever every lane waits for its unit or has stopped while there are units
      left and the master has not aborted. */
  lemma NoLaneIdles<T>(count: nat, cap: nat, events: seq<Event<T>>)
    requires cap >= 1
    ensures var s := Play(count, cap, events);
      s.next < count && !s.aborted && (forall k :: 0 <= k < |s.lanes| ==> !s.lanes[k].AtLoop?) ==>
        |InFlight(s.lanes)| == if cap < count then cap else count
  {
    InvariantAlways(count, cap, events);
    var s := Play(count, cap, events);
    if s.next < count && !s.aborted && forall k :: 0 <= k < |s.lanes| ==> !s.lanes[k].AtLoop? {
      AsManyAsLanes(s.lanes);
    }
  }

  lemma BoundNow<T>(s: State<T>)
    requires Invariant(s)
    ensures |InFlight(s.lanes)| <= Min(|s.lanes|, s.count)
  {
    NoMoreThanLanes(s.lanes);
    NoMoreThan(InFlight(s.lanes), s.count);
  }

  predicate Over<T>(s: State<T>) {
    forall k :: 0 <= k < |s.lanes| ==> s.lanes[k].Finished?
  }

  /** When every lane has stopped, all started units have ended, and without an abort that is
      every unit: slot i then holds what unit i came to. */
  lemma AtTheEnd<T>(count: nat, cap: nat, events: seq<Event<T>>)
    requires cap >= 1 && Over(Play(count, cap, events))
    ensures var s := Play(count, cap, events);
      && |s.started| <= count == |s.results|
      && (forall i :: 0 <= i < |s.started| ==> i in s.ended && s.results[i] == s.ended[i])
      && (forall i :: |s.started| <= i < count ==> s.results[i] == None)
      && (!s.aborted ==> |s.started| == count)
  {
    InvariantAlways(count, cap, events);
    EndState(Play(count, cap, events));
  }

  lemma EndState<T>(s: State<T>)
    requires Invariant(s) && Over(s) && |s.lanes| > 0
    ensures |s.started| == s.next <= s.count == |s.results|
    ensures forall i :: 0 <= i < s.next ==> i in s.ended && s.results[i] == s.ended[i]
    ensures forall i :: s.next <= i < s.count ==> s.results[i] == None
    ensures !s.aborted ==> s.next == s.count
  {
    assert InFlight(s.lanes) == {};
    assert s.lanes[0].Finished?;
  }

  // ---- termination ------------------------------------------------------------------------------

  function Work<T>(s: State<T>): nat
    requires s.next <= s.count
  {
    2 * (s.count - s.next) + LaneWork(s.lanes)
  }

  /** Every step of a lane leaves less to do, and while a lane has not stopped one can step. */
  lemma StepsRunOut<T>(s: State<T>, e: Event<T>)
    requires Invariant(s) && Enabled(s, e) && !e.Abort?
    ensures Step(s, e).next <= s.count && Work(Step(s, e)) < Work(s)
  {
    WorkUpdated(s.lanes, e.lane, Step(s, e).lanes[e.lane]);
  }

  lemma NotStuck<T>(s: State<T>, k: nat, outcome: Option<T>)
    requires Invariant(s) && k < |s.lanes| && !s.lanes[k].Finished?
    ensures Enabled(s, Resume(k)) || Enabled(s, Settle(k, outcome))
  {
    if s.lanes[k].Busy? { assert s.lanes[k].index in InFlight(s.lanes); }
  }

  // ---- the program -------------------------------------------------------------------------------

  class Scheduler<T> {
    const count: nat
    var next: nat
    var results: seq<Option<T>>
    var lanes: seq<Lane>
    var aborted: bool
    ghost var started: seq<nat>
    ghost var ended: map<nat, Option<T>>

    ghost function Now(): State<T>
      reads this
    {
      State(count, next, results, lanes, aborted, started, ended)
    }

    constructor (count: nat, cap: nat)
      ensures Now() == Initial(count, cap) && this.count == count
    {
      this.count := count;
      next, aborted, started, ended := 0, false, [], map[];
      results := seq(count, _ => None);
      lanes := seq(LaneCount(count, cap), _ => AtLoop);
    }

    /** The head of a worker's loop: claim the next unit and start it, or return. */
    method ResumeLane(k: nat)
      requires Enabled(Now(), Resume(k))
      modifies this
      ensures Now() == Step(old(Now()), Resume(k))
    {
      if next < count && !aborted {
        var index := next;
        next := next + 1;
        lanes := lanes[k := Busy(index)];
        started := started + [index];
      } else {
        lanes := lanes[k := Finished];
      }
    }

    /** `results[index] = await this.runUnit(unit)`, a throw giving null. */
    method SettleLane(k: nat, outcome: Option<T>)
      requires Enabled(Now(), Settle(k, outcome))
      modifies this
      ensures Now() == Step(old(Now()), Settle(k, outcome))
    {
      var index := lanes[k].index;
      results := results[index := outcome];
      lanes := lanes[k := AtLoop];
      ended := ended[index := outcome];
    }

    /** One lane takes its next step; the unit it works on, if any, comes to `run` of its index. */
    method Turn(k: nat, run: nat -> Option<T>)
      requires Invariant(Now()) && k < |lanes| && !lanes[k].Finished?
      requires forall i :: i in ended ==> ended[i] == run(i)
      modifies this
      ensures Invariant(Now()) && |lanes| == old(|lanes|) && aborted == old(aborted)
      ensures forall i :: i in ended ==> ended[i] == run(i)
      ensures next <= count && old(next) <= count && Work(Now()) < Work(old(Now()))
      ensures |InFlight(lanes)| <= Min(|lanes|, count)
    {
      hide Invariant, InFlight, LaneWork;
      ghost var before := Now();
      if lanes[k].AtLoop? {
        NotStuck(before, k, None);
        ResumeLane(k);
        InvariantStep(before, Resume(k));
        StepsRunOut(before, Resume(k));
      } else {
        var outcome := run(lanes[k].index);
        NotStuck(before, k, outcome);
        SettleLane(k, outcome);
        InvariantStep(before, Settle(k, outcome));
        StepsRunOut(before, Settle(k, outcome));
      }
      BoundNow(Now());
    }
  }

  /** The lanes driven to the end: `run(i)` is what unit i comes to, `abortAt` when the master
      aborts, and which lane goes next is left open. It ends, and the result is one slot per
      unit in submission order. */
  method RunParallel<T>(count: nat, cap: nat, run: nat -> Option<T>, abortAt: nat -> bool)
    returns (results: seq<Option<T>>, ghost ran: nat, ghost peak: nat, ghost wasAborted: bool)
    requires cap >= 1
    ensures |results| == count && ran <= count && peak <= cap && peak <= count
    ensures forall i :: 0 <= i < count ==> results[i] == if i < ran then run(i) else None
    ensures !wasAborted ==> ran == count
    ensures (forall t :: !abortAt(t)) ==> !wasAborted
  {
    var s := new Scheduler<T>(count, cap);
    var tick := 0;
    peak := 0;
    InvariantAlways<T>(count, cap, []);
    hide Invariant, InFlight, LaneWork;
    while exists k :: 0 <= k < |s.lanes| && !s.lanes[k].Finished?
      invariant Invariant(s.Now()) && |s.lanes| == LaneCount(count, cap) && s.next <= count
      invariant forall i :: i in s.ended ==> s.ended[i] == run(i)
      invariant peak <= Min(cap, count)
      invariant s.aborted ==> exists t :: abortAt(t)
      decreases Work(s.Now())
    {
      if abortAt(tick) {
        InvariantStep(s.Now(), Abort);
        s.aborted := true;
      }
      tick := tick + 1;
      var k :| 0 <= k < |s.lanes| && !s.lanes[k].Finished?;
      s.Turn(k, run);
      if |InFlight(s.lanes)| > peak { peak := |InFlight(s.lanes)|; }
    }
    results, ran, wasAborted := s.results, s.next, s.aborted;
    EndState(s.Now());
  }
}
