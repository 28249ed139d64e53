/** Worker lanes that share a counter: the states they are in between two awaits. */
module Lanes {

  datatype Lane = AtLoop | Busy(index: nat) | Finished

  /** The items being worked on now. */
  function InFlight(lanes: seq<Lane>): set<nat> {
    set k | 0 <= k < |lanes| && lanes[k].Busy? :: lanes[k].index
  }

  /** No item is worked on twice. */
  ghost predicate Exclusive(lanes: seq<Lane>) {
    forall j, k :: 0 <= j < k < |lanes| && lanes[j].Busy? && lanes[k].Busy? ==> lanes[j].index != lanes[k].index
  }

  function Weight(lane: Lane): nat {
    match lane
    case AtLoop => 1
    case Busy(_) => 2
    case Finished => 0
  }

  /** Work left in the lanes themselves: a busy one has yet to come back and to stop. */
  function LaneWork(lanes: seq<Lane>): nat {
    if lanes == [] then 0 else Weight(lanes[0]) + LaneWork(lanes[1..])
  }

  /** One lane changing state changes just its own item. */
  lemma LaneMoved(lanes: seq<Lane>, k: nat, lane: Lane)
    requires k < |lanes| && Exclusive(lanes)
    requires lane.Busy? ==> lane.index !in InFlight(lanes)
    ensures Exclusive(lanes[k := lane])
    ensures InFlight(lanes[k := lane]) ==
      InFlight(lanes) - (if lanes[k].Busy? then {lanes[k].index} else {}) + (if lane.Busy? then {lane.index} else {})
  {
    var lanes' := lanes[k := lane];
    forall j | 0 <= j < |lanes| && lanes[j].Busy? ensures lanes[j].index in InFlight(lanes) {}
    assert forall j :: 0 <= j < |lanes| && j != k ==> lanes'[j] == lanes[j];
    forall i ensures i in InFlight(lanes') <==>
      i in InFlight(lanes) - (if lanes[k].Busy? then {lanes[k].index} else {}) + (if lane.Busy? then {lane.index} else {})
    {
      if i in InFlight(lanes) && !(lanes[k].Busy? && i == lanes[k].index) {
        var j :| 0 <= j < |lanes| && lanes[j].Busy? && lanes[j].index == i;
        assert lanes'[j] == lanes[j];
      }
      if lane.Busy? && i == lane.index { assert lanes'[k] == lane; }
    }
  }

  lemma {:induction false} WorkUpdated(lanes: seq<Lane>, k: nat, lane: Lane)
    requires k < |lanes|
    ensures LaneWork(lanes[k := lane]) + Weight(lanes[k]) == LaneWork(lanes) + Weight(lane)
  {
    if k == 0 {
      assert lanes[0 := lane][1..] == lanes[1..];
    } else {
      WorkUpdated(lanes[1..], k - 1, lane);
      assert lanes[k := lane][1..] == lanes[1..][k - 1 := lane];
    }
  }

  lemma {:induction false} NoMoreThanLanes(lanes: seq<Lane>)
    ensures |InFlight(lanes)| <= |lanes|
  {
    if lanes != [] {
      var init, last := lanes[..|lanes| - 1], lanes[|lanes| - 1];
      NoMoreThanLanes(init);
      var extra := if last.Busy? then {last.index} else {};
      assert InFlight(lanes) == InFlight(init) + extra;
    }
  }

  lemma {:induction false} AsManyAsLanes(lanes: seq<Lane>)
    requires Exclusive(lanes) && forall k :: 0 <= k < |lanes| ==> lanes[k].Busy?
    ensures |InFlight(lanes)| == |lanes|
  {
    if lanes != [] {
      var init, last := lanes[..|lanes| - 1], lanes[|lanes| - 1];
      AsManyAsLanes(init);
      assert InFlight(lanes) == InFlight(init) + {last.index};
    }
  }

  lemma {:induction false} NoMoreThan(s: set<nat>, n: nat)
    requires forall x <- s :: x < n
    ensures |s| <= n
    decreases n
  {
    if n > 0 {
      NoMoreThan(s - {n - 1}, n - 1);
      if n - 1 in s { assert s == (s - {n - 1}) + {n - 1}; } else { assert s == s - {n - 1}; }
    }
  }

  function Min(a: nat, b: nat): nat { if a < b then a else b }
}
