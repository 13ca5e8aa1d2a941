/** Hybrid logical clocks (backend/hlc/hlc.go). Timestamps are 64-bit integers, in microseconds;
    their arithmetic wraps around. */
module Hlc {
  import opened Int64
  import opened Options

  /** A minute, in nanoseconds and in microseconds. */
  const SKEW_THRESHOLD := 60_000_000_000
  const SKEW_MICROS := 60_000_000

  /** How far `base` is ahead of `t` in nanoseconds, unless that is too far. */
  function ValidateSkew(base: int, t: int): Option<int>
  {
    var diff := Wrap(Wrap(base - t) * 1000);
    if diff >= SKEW_THRESHOLD then None else Some(diff)
  }

  /** The new timestamp for a wall reading. */
  function NowAt(maxTime: int, wall: int): Option<int>
  {
    match ValidateSkew(maxTime, wall)
    case None => None
    case Some(diff) => Some(if diff >= 0 then Wrap(wall + (diff / 1000 + 1)) else wall)
  }

  function Tracked(maxTime: int, t: int): int
  {
    if t > maxTime then t else maxTime
  }

  function TrackAt(maxTime: int, t: int, wall: int): int
  {
    if ValidateSkew(t, wall) == None then maxTime else Tracked(maxTime, t)
  }

  class Clock {
    var maxTime: int

    constructor ()
      ensures maxTime == 0
    {
      maxTime := 0;
    }

    method Raise(t: int)
      modifies this
      ensures maxTime == Tracked(old(maxTime), t)
    {
      if t > maxTime {
        maxTime := t;
      }
    }

    /** A timestamp given is the greater of the wall and the next one, and becomes the greatest known;
        none is given exactly if the greatest known is a minute ahead. */
    method Now(wall: int) returns (r: Option<int>)
      modifies this
      ensures r == NowAt(old(maxTime), wall)
      ensures maxTime == if r.Some? then Tracked(old(maxTime), r.value) else old(maxTime)
      ensures Fits(old(maxTime)) && Fits(wall) && Close(old(maxTime), wall) ==>
        && (r == None <==> old(maxTime) - wall >= SKEW_MICROS)
        && (r.Some? && old(maxTime) < MAX_INT64 ==> r.value == maxTime == Max(wall, old(maxTime) + 1))
    {
      if Fits(old(maxTime)) && Fits(wall) && Close(old(maxTime), wall) {
        NowIsNext(maxTime, wall);
      }
      var now := wall;
      var diff := ValidateSkew(maxTime, now);
      if diff == None {
        return None;
      }
      if diff.value >= 0 {
        now := Wrap(now + (diff.value / 1000 + 1));
      }
      Raise(now);
      return Some(now);
    }

    /** Refuses, changing nothing, exactly what is a minute ahead of the wall. */
    method Track(t: int, wall: int) returns (ok: bool)
      modifies this
      ensures ok == ValidateSkew(t, wall).Some? && maxTime == TrackAt(old(maxTime), t, wall)
      ensures Fits(t) && Fits(wall) && Close(t, wall) ==>
        && (ok <==> t - wall < SKEW_MICROS)
        && maxTime == if ok then Max(old(maxTime), t) else old(maxTime)
    {
      if Fits(t) && Fits(wall) && Close(t, wall) {
        TrackIsMax(maxTime, t, wall);
      }
      var diff := ValidateSkew(t, wall);
      if diff == None {
        return false;
      }
      Raise(t);
      return true;
    }
  }

  // ---- One call ----

  /** The difference, in nanoseconds, fits. */
  predicate Close(a: int, b: int)
  {
    -TWO_63 <= (a - b) * 1000 <= MAX_INT64
  }

  /** While the wall is within 2^63/1000 microseconds of the greatest timestamp known, a reading
      fails exactly when that is a minute or more ahead; a timestamp given is the greater of the wall
      and the next one, less than a minute and a microsecond ahead, unless the next one does not fit. */
  lemma {:induction false} NowIsNext(maxTime: int, wall: int)
    requires Fits(maxTime) && Fits(wall) && Close(maxTime, wall)
    ensures NowAt(maxTime, wall) == None <==> maxTime - wall >= SKEW_MICROS
    ensures maxTime - wall < SKEW_MICROS && maxTime < MAX_INT64 ==>
              && NowAt(maxTime, wall) == Some(Max(wall, maxTime + 1))
              && wall <= NowAt(maxTime, wall).value <= wall + SKEW_MICROS && Fits(NowAt(maxTime, wall).value)
    ensures maxTime == MAX_INT64 && NowAt(maxTime, wall).Some? ==> NowAt(maxTime, wall) == Some(-TWO_63)
  {
    assert Wrap(maxTime - wall) == maxTime - wall;
    assert Wrap((maxTime - wall) * 1000) == (maxTime - wall) * 1000;
    assert maxTime >= wall ==> (maxTime - wall) * 1000 / 1000 == maxTime - wall;
    if maxTime == MAX_INT64 {
      assert Wrap(TWO_63) == -TWO_63;
    }
  }

  lemma {:induction false} TrackIsMax(maxTime: int, t: int, wall: int)
    requires Fits(t) && Fits(wall) && Close(t, wall)
    ensures ValidateSkew(t, wall).Some? <==> t - wall < SKEW_MICROS
    ensures TrackAt(maxTime, t, wall) == if t - wall < SKEW_MICROS then Max(maxTime, t) else maxTime
  {
    assert Wrap(t - wall) == t - wall;
    assert Wrap((t - wall) * 1000) == (t - wall) * 1000;
  }

  /** A timestamp given is above the greatest known exactly if there is a next one and the difference,
      in nanoseconds, fits: for all walls from 1970 on, a minute away from where time ends. */
  lemma {:induction false} GoesForward(maxTime: int, wall: int)
    requires 0 <= maxTime <= MAX_INT64 && 0 <= wall < MAX_INT64 - SKEW_MICROS && NowAt(maxTime, wall).Some?
    ensures NowAt(maxTime, wall).value > maxTime <==> maxTime < MAX_INT64 && (maxTime - wall) * 1000 <= MAX_INT64
  {
    assert Wrap(maxTime - wall) == maxTime - wall;
  }

  // ---- Runs of many clocks ----

  /** A clock is read, or is told the timestamp that an earlier event gave. */
  datatype Event = Now(node: string, wall: int) | Track(node: string, from: nat, wall: int)

  type Clocks = map<string, int>

  function MaxOf(clocks: Clocks, node: string): int
  {
    if node in clocks then clocks[node] else 0
  }

  /** What a run leaves: the clocks, and the timestamp each event gave, if any. */
  datatype Log = Log(clocks: Clocks, given: seq<Option<int>>)

  /** The greatest timestamp the node of the event knows after it. */
  function Step(log: Log, e: Event): (int, Option<int>)
  {
    var max := MaxOf(log.clocks, e.node);
    match e
    case Now(_, wall) =>
      var r := NowAt(max, wall);
      (if r.Some? then Tracked(max, r.value) else max, r)
    case Track(_, from, wall) =>
      if from < |log.given| && log.given[from].Some? then (TrackAt(max, log.given[from].value, wall), None)
      else (max, None)
  }

  function RunOf(es: seq<Event>): (log: Log)
    ensures |log.given| == |es|
  {
    if es == [] then Log(map[], [])
    else
      var log, e := RunOf(es[..|es| - 1]), es[|es| - 1];
      Log(log.clocks[e.node := Step(log, e).0], log.given + [Step(log, e).1])
  }

  /** Wall readings from 1970 on, and a minute away from where their nanoseconds stop to fit. */
  predicate Sane(es: seq<Event>)
  {
    forall i :: 0 <= i < |es| ==> 0 <= es[i].wall && (es[i].wall + SKEW_MICROS) * 1000 <= MAX_INT64
  }

  /** The timestamp known to the node of an event right after it, and right before. */
  function Known(es: seq<Event>, i: nat): int
    requires i < |es|
  {
    MaxOf(RunOf(es[..i + 1]).clocks, es[i].node)
  }

  function KnownBefore(es: seq<Event>, i: nat): int
    requires i < |es|
  {
    MaxOf(RunOf(es[..i]).clocks, es[i].node)
  }

  function Given(es: seq<Event>, i: nat): Option<int>
    requires i < |es|
  {
    RunOf(es).given[i]
  }

  /** Two events of a node, or a timestamp and the event that took it in. */
  predicate Direct(es: seq<Event>, i: nat, j: nat)
    requires i < j < |es|
  {
    || es[i].node == es[j].node
    || (es[j].Track? && es[j].from == i && Given(es, i).Some? && ValidateSkew(Given(es, i).value, es[j].wall).Some?)
  }

  predicate HappensBefore(es: seq<Event>, i: nat, j: nat)
    requires j < |es|
    decreases j
  {
    i < j && (Direct(es, i, j) || exists k :: i < k < j && HappensBefore(es, i, k) && Direct(es, k, j))
  }

  lemma {:induction false} PrefixOfRun(es: seq<Event>, n: nat)
    requires n <= |es|
    ensures RunOf(es).given[..n] == RunOf(es[..n]).given
    decreases |es|
  {
    if n < |es| {
      var init := es[..|es| - 1];
      PrefixOfRun(init, n);
      assert init[..n] == es[..n];
      assert RunOf(es).given[..n] == RunOf(init).given[..n];
    } else {
      assert es[..n] == es;
    }
  }

  /** What one event does, in terms of the whole run. */
  lemma {:induction false} EventStep(es: seq<Event>, i: nat)
    requires i < |es|
    ensures Step(RunOf(es[..i]), es[i]) == (Known(es, i), Given(es, i))
    ensures RunOf(es[..i + 1]).clocks == RunOf(es[..i]).clocks[es[i].node := Known(es, i)]
  {
    var part := es[..i + 1];
    assert part[..i] == es[..i] && part[i] == es[i];
    PrefixOfRun(es, i + 1);
    assert RunOf(es).given[i] == RunOf(es).given[..i + 1][i];
  }

  lemma {:induction false} GivenBefore(es: seq<Event>, i: nat, j: nat)
    requires i < j <= |es|
    ensures RunOf(es[..j]).given[i] == Given(es, i)
  {
    PrefixOfRun(es, j);
    assert RunOf(es).given[..j][i] == RunOf(es).given[i];
  }

  predicate InRange(x: int)
  {
    0 <= x && x * 1000 <= MAX_INT64
  }

  /** All timestamps of a sane run stay in the range in which clocks go forward. */
  lemma {:induction false} RunStaysInRange(es: seq<Event>)
    requires Sane(es)
    ensures forall node :: node in RunOf(es).clocks ==> InRange(RunOf(es).clocks[node])
    ensures forall i :: 0 <= i < |es| && RunOf(es).given[i].Some? ==> InRange(RunOf(es).given[i].value)
  {
    if es != [] {
      var init, e := es[..|es| - 1], es[|es| - 1];
      var log := RunOf(init);
      assert forall i :: 0 <= i < |init| ==> init[i] == es[i];
      RunStaysInRange(init);
      StepStaysInRange(log, e);
    }
  }

  lemma {:induction false} StepStaysInRange(log: Log, e: Event)
    requires 0 <= e.wall && (e.wall + SKEW_MICROS) * 1000 <= MAX_INT64
    requires forall node :: node in log.clocks ==> InRange(log.clocks[node])
    requires forall i :: 0 <= i < |log.given| && log.given[i].Some? ==> InRange(log.given[i].value)
    ensures InRange(Step(log, e).0) && (Step(log, e).1.Some? ==> InRange(Step(log, e).1.value))
    ensures MaxOf(log.clocks, e.node) <= Step(log, e).0
    ensures e.Now? && Step(log, e).1.Some? ==>
              && MaxOf(log.clocks, e.node) < Step(log, e).1.value == Step(log, e).0
              && Step(log, e).1.value == Max(e.wall, MaxOf(log.clocks, e.node) + 1)
  {
    var max := MaxOf(log.clocks, e.node);
    NowIsNext(max, e.wall);
  }

  /** One event never lowers what its node knows, and a timestamp given is above all known before. */
  lemma {:induction false} EventRaises(es: seq<Event>, i: nat)
    requires Sane(es) && i < |es|
    ensures KnownBefore(es, i) <= Known(es, i)
    ensures es[i].Now? && Given(es, i).Some? ==>
              KnownBefore(es, i) < Given(es, i).value == Known(es, i)
              && Given(es, i).value == Max(es[i].wall, KnownBefore(es, i) + 1)
    ensures es[i].Track? ==> Given(es, i) == None
  {
    RunStaysInRange(es[..i]);
    StepStaysInRange(RunOf(es[..i]), es[i]);
    EventStep(es, i);
  }

  /** What a node knows is kept up to its later events. */
  lemma {:induction false} NodeRemembers(es: seq<Event>, i: nat, n: nat)
    requires Sane(es) && i < n <= |es|
    ensures Known(es, i) <= MaxOf(RunOf(es[..n]).clocks, es[i].node)
    decreases n
  {
    if i < n - 1 {
      NodeRemembers(es, i, n - 1);
      EventStep(es, n - 1);
      EventRaises(es, n - 1);
    }
  }

  lemma {:induction false} DirectKnows(es: seq<Event>, i: nat, j: nat)
    requires Sane(es) && i < j < |es| && Direct(es, i, j)
    ensures Known(es, i) <= Known(es, j)
    ensures es[j].Now? ==> Known(es, i) <= KnownBefore(es, j)
  {
    if es[i].node == es[j].node {
      NodeRemembers(es, i, j);
      EventRaises(es, j);
    } else {
      GivenBefore(es, i, j);
      EventStep(es, j);
      EventRaises(es, i);
    }
  }

  /** Whatever happens before is known afterwards. */
  lemma {:induction false} CausesAreKnown(es: seq<Event>, i: nat, j: nat)
    requires Sane(es) && j < |es| && HappensBefore(es, i, j)
    ensures Known(es, i) <= Known(es, j)
    ensures es[j].Now? ==> Known(es, i) <= KnownBefore(es, j)
    decreases j
  {
    if Direct(es, i, j) {
      DirectKnows(es, i, j);
    } else {
      var k :| i < k < j && HappensBefore(es, i, k) && Direct(es, k, j);
      CausesAreKnown(es, i, k);
      DirectKnows(es, k, j);
    }
  }

  /** A timestamp given causally later is strictly greater, whichever clocks gave the two. */
  lemma {:induction false} CausallyLaterIsGreater(es: seq<Event>, i: nat, j: nat)
    requires Sane(es) && j < |es| && HappensBefore(es, i, j)
    requires Given(es, i).Some? && Given(es, j).Some?
    ensures Given(es, i).value < Given(es, j).value
  {
    EventRaises(es, i);
    EventRaises(es, j);
    CausesAreKnown(es, i, j);
  }

  // ---- A clock that goes back ----

  /** The last microsecond since 1970 whose nanoseconds fit, in the year 2262. */
  const LATEST := 9_223_372_036_854_775

  /** One node reads its clock twice, another that is set to 1970 takes in the timestamp and reads its own. */
  const GOING_BACK := [Now("b", LATEST), Now("b", LATEST), Track("a", 1, 0), Now("a", 0)]

  ghost function FirstTwo(): Log
  {
    Log(map["b" := LATEST + 1], [Some(LATEST), Some(LATEST + 1)])
  }

  lemma {:induction false} FirstTwoRead()
    ensures RunOf(GOING_BACK[..2]) == FirstTwo()
  {
    var l1 := Log(map["b" := LATEST], [Some(LATEST)]);
    NextLog(GOING_BACK, 0, Log(map[], []), l1);
    NextLog(GOING_BACK, 1, l1, FirstTwo());
  }

  /** The difference wraps around to a negative one. */
  lemma {:induction false} TooLateFor1970()
    ensures ValidateSkew(LATEST + 1, 0).Some? && ValidateSkew(LATEST + 1, 0).value < 0
  {
    assert Wrap((LATEST + 1) * 1000) == (LATEST + 1) * 1000 - TWO_64;
  }

  lemma {:induction false} TakenIn(log: Log)
    requires log == FirstTwo()
    ensures Step(log, Track("a", 1, 0)) == (LATEST + 1, None)
  {
    TooLateFor1970();
  }

  lemma {:induction false} ThenRead(log: Log)
    requires MaxOf(log.clocks, "a") == LATEST + 1
    ensures Step(log, Now("a", 0)) == (LATEST + 1, Some(0))
  {
    TooLateFor1970();
  }

  lemma {:induction false} LastTwoRead()
    ensures RunOf(GOING_BACK).given == FirstTwo().given + [None, Some(0)]
  {
    var l2 := FirstTwo();
    FirstTwoRead();
    TakenIn(l2);
    var l3 := Log(l2.clocks["a" := LATEST + 1], l2.given + [None]);
    NextLog(GOING_BACK, 2, l2, l3);
    ThenRead(l3);
    NextLog(GOING_BACK, 3, l3, Log(l3.clocks["a" := LATEST + 1], l3.given + [Some(0)]));
    assert GOING_BACK[..4] == GOING_BACK;
  }

  /** Outside sane runs a clock can go back: the timestamp taken in is accepted, as the difference wraps
      around, and the one given causally later is smaller. */
  lemma {:induction false} ClockGoesBack()
    ensures HappensBefore(GOING_BACK, 1, 3)
    ensures Given(GOING_BACK, 1) == Some(LATEST + 1) && Given(GOING_BACK, 3) == Some(0)
  {
    LastTwoRead();
    GoesOverToA(GOING_BACK);
  }

  lemma {:induction false} GoesOverToA(es: seq<Event>)
    requires es == GOING_BACK && Given(es, 1) == Some(LATEST + 1)
    ensures HappensBefore(es, 1, 3)
  {
    TooLateFor1970();
    assert Direct(es, 1, 2) && Direct(es, 2, 3);
    assert HappensBefore(es, 1, 2);
  }

  lemma {:induction false} NextLog(es: seq<Event>, i: nat, log: Log, next: Log)
    requires i < |es| && RunOf(es[..i]) == log
    requires next.given == log.given + [Step(log, es[i]).1] && next.clocks == log.clocks[es[i].node := Step(log, es[i]).0]
    ensures RunOf(es[..i + 1]) == next
  {
    assert es[..i + 1][..i] == es[..i];
  }
}
