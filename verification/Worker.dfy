/** The worker that syncs with one peer: ticks, backoff and the first delay (backend/syncing/worker.go).
    Times are nanoseconds; durations are 64-bit integers whose shifts drop bits. */
module Worker {
  import opened Int64
  import opened Options

  datatype State = CheckConnection | Connecting | Syncing | Backoff | Sleeping

  datatype PeerState = NoAddr | Online | Offline

  /** What one transition finds: the peer's state, what connecting comes to, and the clock. */
  datatype Input = Input(peer: PeerState, connect: PeerState, now: int)

  /** No deadline: the zero time, which is before any reading. */
  datatype Machine = Machine(state: State, attempts: int, deadline: Option<int>)

  const STARTED := Machine(Sleeping, -1, None)

  function Pow2(n: nat): (p: nat)
    ensures p >= 1
  {
    if n == 0 then 1 else 2 * Pow2(n - 1)
  }

  /** The interval shifted by the attempts. */
  function Delay(interval: int, attempts: nat): int
  {
    Wrap(interval * Pow2(attempts))
  }

  /** One transition; a sleeping worker is woken by a tick. */
  function Transition(interval: int, m: Machine, input: Input): Machine
  {
    match m.state
    case CheckConnection => m.(state := if input.peer == Online then Syncing else Backoff)
    case Connecting =>
      (match input.connect
       case Online => m.(state := Syncing)
       case Offline => m.(state := Sleeping)
       case NoAddr =>
         var attempts := Max(1, m.attempts + 1);
         Machine(Backoff, attempts, Some(input.now + Delay(interval, attempts))))
    case Syncing => Machine(Sleeping, 0, None)
    case Backoff =>
      m.(state := if m.deadline.Some? && input.now < m.deadline.value then Sleeping else Connecting)
    case Sleeping => m.(state := CheckConnection)
  }

  function RunOf(interval: int, m: Machine, inputs: seq<Input>): Machine
  {
    if inputs == [] then m
    else Transition(interval, RunOf(interval, m, inputs[..|inputs| - 1]), inputs[|inputs| - 1])
  }

  class SyncWorker {
    const interval: int
    var attempts: int
    var deadline: Option<int>

    constructor (interval: int)
      ensures this.interval == interval && attempts == -1 && deadline == None
    {
      this.interval := interval;
      attempts, deadline := -1, None;
    }

    /** Transitions from a tick until the worker sleeps, or until the inputs given are used up. */
    method Tick(inputs: seq<Input>) returns (state: State, n: nat, ghost synced: Option<nat>)
      modifies this
      ensures synced.Some? ==> SyncsAt(interval, old(attempts), old(deadline), inputs, synced.value)
      ensures synced == None ==> NeverSyncs(interval, old(attempts), old(deadline), inputs)
      ensures synced.Some? ==> state == Sleeping && attempts == 0 && deadline == None
      ensures n <= |inputs| && (state == Sleeping || n == |inputs|)
      ensures Machine(state, attempts, deadline) ==
              RunOf(interval, Machine(CheckConnection, old(attempts), old(deadline)), inputs[..n])
    {
      state, n, synced := CheckConnection, 0, None;
      ghost var m := Machine(state, attempts, deadline);
      while state != Sleeping && n < |inputs|
        invariant n <= |inputs| && (state == Sleeping ==> n > 0)
        invariant synced.Some? ==> state == Sleeping && attempts == 0 && deadline == None
        invariant state != Sleeping ==> AwakeUpTo(interval, m, inputs, n)
        invariant Noted(interval, m, inputs, n, synced)
        invariant Machine(state, attempts, deadline) == RunOf(interval, m, inputs[..n])
        decreases |inputs| - n
      {
        var input := inputs[n];
        assert inputs[..n + 1][..n] == inputs[..n];
        NextOf(interval, m, inputs, n);
        NotesNext(interval, m, inputs, n);
        match state {
          case CheckConnection =>
            state := if input.peer == Online then Syncing else Backoff;
          case Connecting =>
            match input.connect {
              case Online => state := Syncing;
              case Offline => state := Sleeping;
              case NoAddr =>
                attempts := Max(1, attempts + 1);
                deadline := Some(input.now + Delay(interval, attempts));
                state := Backoff;
            }
          case Syncing =>
            synced := Some(n);
            attempts := 0;
            deadline := None;
            state := Sleeping;
          case Backoff =>
            if deadline.Some? && input.now < deadline.value {
              state := Sleeping;
            } else {
              state := Connecting;
            }
        }
        n := n + 1;
      }
      SleepsBefore(interval, m, inputs, n, synced);
    }
  }

  /** Of the transitions so far the one that synced, if any, is noted. */
  ghost predicate Noted(interval: int, m: Machine, inputs: seq<Input>, n: nat, synced: Option<nat>)
  {
    && (synced.Some? ==> synced.value < n && SyncsAt(interval, m.attempts, m.deadline, inputs, synced.value))
    && forall i: nat :: i < n && SyncsAt(interval, m.attempts, m.deadline, inputs, i) ==> synced == Some(i)
  }

  ghost predicate NeverSyncs(interval: int, attempts: int, deadline: Option<int>, inputs: seq<Input>)
  {
    forall i: nat :: !SyncsAt(interval, attempts, deadline, inputs, i)
  }

  lemma {:induction false} NotesNext(interval: int, m: Machine, inputs: seq<Input>, n: nat)
    requires m.state == CheckConnection && n < |inputs| && AwakeUpTo(interval, m, inputs, n)
    requires Noted(interval, m, inputs, n, None)
    ensures
      var synced := if RunOf(interval, m, inputs[..n]).state == Syncing then Some(n) else None;
      Noted(interval, m, inputs, n + 1, synced)
  {
    TickSyncsExactly(interval, m, inputs, n);
  }

  lemma {:induction false} SleepsBefore(interval: int, m: Machine, inputs: seq<Input>, n: nat, synced: Option<nat>)
    requires m.state == CheckConnection && n <= |inputs| && Noted(interval, m, inputs, n, synced)
    requires n == |inputs| || (n > 0 && RunOf(interval, m, inputs[..n]).state == Sleeping)
    ensures synced == None ==> NeverSyncs(interval, m.attempts, m.deadline, inputs)
  {
    forall i: nat | i >= n
      ensures !SyncsAt(interval, m.attempts, m.deadline, inputs, i)
    {
      if i < |inputs| {
        TickSyncsExactly(interval, m, inputs, i);
      }
    }
  }

  // ---- Every tick ends ----

  /** From setting a deadline to checking it less time passes than the delay. */
  predicate Prompt(interval: int, m: Machine, a: Input, b: Input)
  {
    m.state == Connecting && a.connect == NoAddr ==> b.now < a.now + Delay(interval, Max(1, m.attempts + 1))
  }

  predicate SleepsWithin(interval: int, m: Machine, inputs: seq<Input>)
  {
    exists n :: 1 <= n <= |inputs| && RunOf(interval, m, inputs[..n]).state == Sleeping
  }

  /** Whatever the peer does, a tick takes at most four transitions, exactly if it is prompt. */
  lemma {:induction false} EveryTickSleeps(interval: int, m: Machine, inputs: seq<Input>)
    requires m.state == CheckConnection && |inputs| == 4
    ensures SleepsWithin(interval, m, inputs) <==> Prompt(interval, RunOf(interval, m, inputs[..2]), inputs[2], inputs[3])
  {
    var m1, m2, m3 := RunOf(interval, m, inputs[..1]), RunOf(interval, m, inputs[..2]), RunOf(interval, m, inputs[..3]);
    var m4 := RunOf(interval, m, inputs[..4]);
    Unrolled(interval, m, inputs);
    assert m1.state != Sleeping;
    assert SleepsWithin(interval, m, inputs) <==> m2.state == Sleeping || m3.state == Sleeping || m4.state == Sleeping by {
      if n :| 1 <= n <= 4 && RunOf(interval, m, inputs[..n]).state == Sleeping {
        assert n == 1 || n == 2 || n == 3 || n == 4;
      }
    }
  }

  lemma {:induction false} Unrolled(interval: int, m: Machine, inputs: seq<Input>)
    requires |inputs| == 4
    ensures RunOf(interval, m, inputs[..1]) == Transition(interval, m, inputs[0])
    ensures RunOf(interval, m, inputs[..2]) == Transition(interval, RunOf(interval, m, inputs[..1]), inputs[1])
    ensures RunOf(interval, m, inputs[..3]) == Transition(interval, RunOf(interval, m, inputs[..2]), inputs[2])
    ensures RunOf(interval, m, inputs[..4]) == Transition(interval, RunOf(interval, m, inputs[..3]), inputs[3])
  {
    assert inputs[..1][..0] == [] && inputs[..2][..1] == inputs[..1];
    assert inputs[..3][..2] == inputs[..2] && inputs[..4][..3] == inputs[..3];
  }

  /** Once the shift has dropped all bits of the interval a tick goes on while the peer has no address. */
  lemma {:induction false} TickNeedNotEnd(interval: int, m: Machine, inputs: seq<Input>)
    requires m.state == Connecting && m.attempts >= 63
    requires forall i :: 0 <= i < |inputs| ==> inputs[i].connect == NoAddr
    requires forall i, j :: 0 <= i < j < |inputs| ==> inputs[i].now <= inputs[j].now
    ensures RunOf(interval, m, inputs).state == if |inputs| % 2 == 0 then Connecting else Backoff
    ensures RunOf(interval, m, inputs).attempts >= 63
    ensures |inputs| % 2 == 1 ==> RunOf(interval, m, inputs).deadline == Some(inputs[|inputs| - 1].now)
  {
    if inputs != [] {
      var init := inputs[..|inputs| - 1];
      var before := RunOf(interval, m, init);
      assert forall i :: 0 <= i < |init| ==> init[i] == inputs[i];
      TickNeedNotEnd(interval, m, init);
      if |init| % 2 == 0 {
        FailsAtOnce(interval, before, inputs[|inputs| - 1]);
      } else {
        assert init[|init| - 1] == inputs[|inputs| - 2];
      }
    }
  }

  /** An interval of 2^62 nanoseconds: doubled it is negative, and then nothing. */
  const HUGE := 0x4000_0000_0000_0000

  lemma {:induction false} HugeDelays(attempts: nat)
    requires attempts >= 1
    ensures Delay(HUGE, attempts) == if attempts == 1 then -TWO_63 else 0
  {
    if attempts == 1 {
      assert Wrap(TWO_63) == -TWO_63;
    } else {
      var q := Pow2(attempts - 2);
      assert HUGE * Pow2(attempts) == q * TWO_64;
      assert (q * TWO_64 + TWO_63) % TWO_64 == TWO_63 by {
        ModOfMultiple(q, TWO_64, TWO_63);
      }
    }
  }

  /** Started with such an interval and a peer that never has an address, the worker never sleeps again
      after its first tick begins. */
  lemma {:induction false} FirstTickNeedNotEnd(inputs: seq<Input>)
    requires forall i :: 0 <= i < |inputs| ==> inputs[i].peer == NoAddr && inputs[i].connect == NoAddr
    requires forall i, j :: 0 <= i < j < |inputs| ==> inputs[i].now <= inputs[j].now
    ensures
      var m := RunOf(HUGE, STARTED, inputs);
      if |inputs| == 0 then m == STARTED
      else if |inputs| == 1 then m.state == CheckConnection && m.attempts == -1 && m.deadline == None
      else
        && m.state == (if |inputs| % 2 == 0 then Backoff else Connecting)
        && m.attempts == (if |inputs| < 4 then -1 else |inputs| / 2 - 1)
        && (m.deadline.Some? ==> m.deadline.value <= inputs[|inputs| - 1].now)
  {
    if inputs != [] {
      var init := inputs[..|inputs| - 1];
      assert forall i :: 0 <= i < |init| ==> init[i] == inputs[i];
      FirstTickNeedNotEnd(init);
      HugeDelays(Max(1, RunOf(HUGE, STARTED, init).attempts + 1));
    }
  }

  lemma {:induction false} FailsAtOnce(interval: int, m: Machine, input: Input)
    requires m.state == Connecting && m.attempts >= 63 && input.connect == NoAddr
    ensures Transition(interval, m, input) == Machine(Backoff, m.attempts + 1, Some(input.now))
  {
    NoDelay(interval, m.attempts + 1);
  }

  lemma {:induction false} NoDelay(interval: int, attempts: nat)
    requires attempts >= 64
    ensures Delay(interval, attempts) == 0
  {
    PowSplits(attempts);
    var q := interval * Pow2(attempts - 64);
    assert interval * Pow2(attempts) == q * TWO_64 by {
      MulSplits(interval, Pow2(attempts - 64), TWO_64);
    }
    assert (q * TWO_64 + TWO_63) % TWO_64 == TWO_63 by {
      ModOfMultiple(q, TWO_64, TWO_63);
    }
  }

  lemma {:induction false} MulSplits(a: int, b: int, c: int)
    ensures a * (b * c) == (a * b) * c
  {
  }

  lemma {:induction false} ModOfMultiple(q: int, m: nat, r: nat)
    requires r < m
    ensures (q * m + r) % m == r
  {
    var x := q * m + r;
    var d, e := x / m, x % m;
    assert x == m * d + e;
    Multiples(q, d, m);
    Multiples(d, q, m);
  }

  lemma {:induction false} Multiples(a: int, b: int, m: nat)
    ensures a > b ==> a * m >= m * b + m
  {
    if a > b {
      assert a * m == (a - b - 1) * m + b * m + m;
      Nonnegative(a - b - 1, m);
    }
  }

  lemma {:induction false} Nonnegative(a: nat, b: nat)
    ensures a * b >= 0
  {
  }

  lemma {:induction false} PowSplits(n: nat)
    requires n >= 64
    ensures Pow2(n) == Pow2(n - 64) * TWO_64
  {
    if n == 64 {
      TwoTo64();
    } else {
      PowSplits(n - 1);
      MulSplits(2, Pow2(n - 65), TWO_64);
    }
  }

  lemma {:induction false} TwoTo64()
    ensures Pow2(64) == TWO_64
  {
    assert Pow2(4) == 16;
    PowSum(4, 4);
    PowSum(8, 8);
    PowSum(16, 16);
    PowSum(32, 32);
  }

  lemma {:induction false} PowSum(a: nat, b: nat)
    ensures Pow2(a + b) == Pow2(a) * Pow2(b)
  {
    if a > 0 {
      PowSum(a - 1, b);
      MulSplits(2, Pow2(a - 1), Pow2(b));
    }
  }

  // ---- When a tick syncs ----

  /** No deadline stands, or it has passed. */
  predicate Due(deadline: Option<int>, now: int)
  {
    deadline == None || now >= deadline.value
  }

  /** How many failures the `j`-th attempt of a tick makes, if it fails. */
  function AttemptsAfter(attempts: int, j: nat): int
  {
    Max(1, attempts + 1) + j
  }

  /** The `j`-th attempt of a tick finds no address, and its delay is over when that is looked at. */
  predicate FailsBriefly(interval: int, attempts: int, inputs: seq<Input>, j: nat)
    requires 2 * j + 3 < |inputs|
  {
    && inputs[2 * j + 2].connect == NoAddr
    && inputs[2 * j + 3].now >= inputs[2 * j + 2].now + Delay(interval, AttemptsAfter(attempts, j))
  }

  ghost predicate AllFailBriefly(interval: int, attempts: int, inputs: seq<Input>, k: nat)
    requires 2 * k + 1 < |inputs|
  {
    forall j :: 0 <= j < k ==> FailsBriefly(interval, attempts, inputs, j)
  }

  /** The attempts before the `k`-th fail briefly, and the `k`-th finds the peer online. */
  ghost predicate SucceedsAt(interval: int, attempts: int, inputs: seq<Input>, k: nat)
  {
    2 * k + 2 < |inputs| && AllFailBriefly(interval, attempts, inputs, k) && inputs[2 * k + 2].connect == Online
  }

  /** The transition of a tick that syncs: the second if the peer is online when the connection is checked, and
      else, if an attempt is due, the one after the attempt that finds it online. */
  ghost predicate SyncsAt(interval: int, attempts: int, deadline: Option<int>, inputs: seq<Input>, n: nat)
  {
    n < |inputs| &&
    if inputs[0].peer == Online then n == 1
    else
      && n >= 3 && n % 2 == 1 && Due(deadline, inputs[1].now)
      && SucceedsAt(interval, attempts, inputs, (n - 3) / 2)
  }

  predicate AwakeUpTo(interval: int, m: Machine, inputs: seq<Input>, n: nat)
    requires n <= |inputs|
  {
    forall i :: 1 <= i <= n ==> RunOf(interval, m, inputs[..i]).state != Sleeping
  }

  lemma {:induction false} NextOf(interval: int, m: Machine, inputs: seq<Input>, i: nat)
    requires i < |inputs|
    ensures RunOf(interval, m, inputs[..i + 1]) == Transition(interval, RunOf(interval, m, inputs[..i]), inputs[i])
    ensures AwakeUpTo(interval, m, inputs, i + 1) <==>
            AwakeUpTo(interval, m, inputs, i) && RunOf(interval, m, inputs[..i + 1]).state != Sleeping
  {
    assert inputs[..i + 1][..i] == inputs[..i];
  }

  /** The machine before the `k`-th attempt of a tick. */
  function BeforeAttempt(interval: int, m: Machine, inputs: seq<Input>, k: nat): Machine
    requires 2 * k < |inputs|
  {
    if k == 0 then m.(state := Connecting)
    else
      var attempts := AttemptsAfter(m.attempts, k - 1);
      Machine(Connecting, attempts, Some(inputs[2 * k].now + Delay(interval, attempts)))
  }

  lemma {:induction false} NextAttempt(interval: int, m: Machine, inputs: seq<Input>, k: nat)
    requires k > 0 && 2 * k + 1 < |inputs|
    ensures
      var m1 := Transition(interval, BeforeAttempt(interval, m, inputs, k - 1), inputs[2 * k]);
      var m2 := Transition(interval, m1, inputs[2 * k + 1]);
      && (FailsBriefly(interval, m.attempts, inputs, k - 1) ==>
            m1.state == Backoff && m2 == BeforeAttempt(interval, m, inputs, k))
      && (!FailsBriefly(interval, m.attempts, inputs, k - 1) ==> m1.state == Sleeping || m2.state == Sleeping)
  {
  }

  lemma {:induction false} ReachesAttempt(interval: int, m: Machine, inputs: seq<Input>, k: nat)
    requires m.state == CheckConnection && 2 * k + 1 < |inputs| && inputs[0].peer != Online
    ensures AwakeUpTo(interval, m, inputs, 2 * k + 2) <==>
            Due(m.deadline, inputs[1].now) && AllFailBriefly(interval, m.attempts, inputs, k)
    ensures AwakeUpTo(interval, m, inputs, 2 * k + 2) ==>
            RunOf(interval, m, inputs[..2 * k + 2]) == BeforeAttempt(interval, m, inputs, k)
  {
    if k == 0 {
      assert inputs[..0] == [];
      NextOf(interval, m, inputs, 0);
      NextOf(interval, m, inputs, 1);
    } else {
      var n := 2 * k;
      ReachesAttempt(interval, m, inputs, k - 1);
      NextAttempt(interval, m, inputs, k);
      AllButLast(interval, m.attempts, inputs, k);
      AwakeAgain(interval, m, inputs, n, BeforeAttempt(interval, m, inputs, k - 1));
    }
  }

  /** Two transitions on, the machine is awake if it was and neither puts it to sleep. */
  lemma {:induction false} AwakeAgain(interval: int, m: Machine, inputs: seq<Input>, n: nat, before: Machine)
    requires n + 1 < |inputs| && (AwakeUpTo(interval, m, inputs, n) ==> RunOf(interval, m, inputs[..n]) == before)
    ensures
      var m1 := Transition(interval, before, inputs[n]);
      var m2 := Transition(interval, m1, inputs[n + 1]);
      && (AwakeUpTo(interval, m, inputs, n + 2) <==>
            AwakeUpTo(interval, m, inputs, n) && m1.state != Sleeping && m2.state != Sleeping)
      && (AwakeUpTo(interval, m, inputs, n + 2) ==> RunOf(interval, m, inputs[..n + 2]) == m2)
  {
    NextOf(interval, m, inputs, n);
    NextOf(interval, m, inputs, n + 1);
  }

  lemma {:induction false} AllButLast(interval: int, attempts: int, inputs: seq<Input>, k: nat)
    requires k > 0 && 2 * k + 1 < |inputs|
    ensures AllFailBriefly(interval, attempts, inputs, k) <==>
            AllFailBriefly(interval, attempts, inputs, k - 1) && FailsBriefly(interval, attempts, inputs, k - 1)
  {
  }

  /** A tick syncs exactly at these transitions. */
  lemma {:induction false} TickSyncsExactly(interval: int, m: Machine, inputs: seq<Input>, n: nat)
    requires m.state == CheckConnection && n < |inputs|
    ensures AwakeUpTo(interval, m, inputs, n) && RunOf(interval, m, inputs[..n]).state == Syncing <==>
            SyncsAt(interval, m.attempts, m.deadline, inputs, n)
  {
    assert inputs[..0] == [];
    if n > 0 {
      NextOf(interval, m, inputs, 0);
    }
    if n > 1 {
      NextOf(interval, m, inputs, 1);
      assert RunOf(interval, m, inputs[..1]).state == Syncing ==> RunOf(interval, m, inputs[..2]).state == Sleeping;
      if inputs[0].peer != Online {
        LaterSyncs(interval, m, inputs, n);
      }
    }
  }

  lemma {:induction false} LaterSyncs(interval: int, m: Machine, inputs: seq<Input>, n: nat)
    requires m.state == CheckConnection && 1 < n < |inputs| && inputs[0].peer != Online
    ensures AwakeUpTo(interval, m, inputs, n) && RunOf(interval, m, inputs[..n]).state == Syncing <==>
            SyncsAt(interval, m.attempts, m.deadline, inputs, n)
  {
    if n % 2 == 0 {
      BeforeNoSync(interval, m, inputs, n / 2 - 1);
    } else {
      BehindAttempt(interval, m, inputs, (n - 3) / 2);
    }
  }

  lemma {:induction false} BeforeNoSync(interval: int, m: Machine, inputs: seq<Input>, k: nat)
    requires m.state == CheckConnection && 2 * k + 2 < |inputs| && inputs[0].peer != Online
    ensures !(AwakeUpTo(interval, m, inputs, 2 * k + 2) && RunOf(interval, m, inputs[..2 * k + 2]).state == Syncing)
  {
    ReachesAttempt(interval, m, inputs, k);
  }

  lemma {:induction false} BehindAttempt(interval: int, m: Machine, inputs: seq<Input>, k: nat)
    requires m.state == CheckConnection && 2 * k + 3 < |inputs| && inputs[0].peer != Online
    ensures AwakeUpTo(interval, m, inputs, 2 * k + 3) && RunOf(interval, m, inputs[..2 * k + 3]).state == Syncing <==>
            Due(m.deadline, inputs[1].now) && SucceedsAt(interval, m.attempts, inputs, k)
  {
    ReachesAttempt(interval, m, inputs, k);
    NextOf(interval, m, inputs, 2 * k + 2);
  }

  /** A deadline ahead, an attempt that finds the peer offline, or a failure whose delay is not over: none of
      these syncs. */
  lemma {:induction false} NothingSyncs(interval: int, attempts: int, deadline: Option<int>, inputs: seq<Input>)
    requires |inputs| > 2 && inputs[0].peer != Online
    requires !Due(deadline, inputs[1].now) || inputs[2].connect == Offline ||
             (inputs[2].connect == NoAddr && (|inputs| > 3 ==> !FailsBriefly(interval, attempts, inputs, 0)))
    ensures NeverSyncs(interval, attempts, deadline, inputs)
  {
    forall n: nat
      ensures !SyncsAt(interval, attempts, deadline, inputs, n)
    {
      assert n >= 5 && n < |inputs| && AllFailBriefly(interval, attempts, inputs, (n - 3) / 2) ==>
        FailsBriefly(interval, attempts, inputs, 0);
    }
  }

  // ---- Backoff ----

  /** The machine before transition `i` of a run. */
  function At(interval: int, inputs: seq<Input>, i: nat): Machine
    requires i <= |inputs|
  {
    RunOf(interval, STARTED, inputs[..i])
  }

  lemma {:induction false} AtNext(interval: int, inputs: seq<Input>, i: nat)
    requires i < |inputs|
    ensures At(interval, inputs, i + 1) == Transition(interval, At(interval, inputs, i), inputs[i])
  {
    assert inputs[..i + 1][..i] == inputs[..i];
  }

  predicate Fails(interval: int, inputs: seq<Input>, i: nat)
    requires i < |inputs|
  {
    At(interval, inputs, i).state == Connecting && inputs[i].connect == NoAddr
  }

  predicate Syncs(interval: int, inputs: seq<Input>, i: nat)
    requires i < |inputs|
  {
    At(interval, inputs, i).state == Syncing
  }

  /** How often in a row connecting has failed for want of an address, not counting from before a sync. */
  function Failures(interval: int, inputs: seq<Input>, i: nat): nat
    requires i <= |inputs|
  {
    if i == 0 then 0
    else if Syncs(interval, inputs, i - 1) then 0
    else Failures(interval, inputs, i - 1) + if Fails(interval, inputs, i - 1) then 1 else 0
  }

  /** The attempts counted are the failures in a row. */
  lemma {:induction false} AttemptsAreFailures(interval: int, inputs: seq<Input>, i: nat)
    requires i <= |inputs|
    ensures
      var k, attempts := Failures(interval, inputs, i), At(interval, inputs, i).attempts;
      if k > 0 then attempts == k else -1 <= attempts <= 0
  {
    if i > 0 {
      AtNext(interval, inputs, i - 1);
      AttemptsAreFailures(interval, inputs, i - 1);
    }
  }

  /** Between a failure and the next attempt there was neither a sync nor another failure. */
  predicate Quiet(interval: int, inputs: seq<Input>, i: nat, j: nat)
    requires i < j <= |inputs|
  {
    forall n :: i < n < j ==> !Syncs(interval, inputs, n) && !Fails(interval, inputs, n)
  }

  lemma {:induction false} DeadlineStays(interval: int, inputs: seq<Input>, i: nat, j: nat)
    requires i < j <= |inputs| && Fails(interval, inputs, i) && Quiet(interval, inputs, i, j)
    ensures
      var k := Failures(interval, inputs, i + 1);
      At(interval, inputs, j).deadline == Some(inputs[i].now + Delay(interval, k))
    decreases j
  {
    AtNext(interval, inputs, j - 1);
    if j == i + 1 {
      AttemptsAreFailures(interval, inputs, i);
      AttemptsAreFailures(interval, inputs, i + 1);
    } else {
      DeadlineStays(interval, inputs, i, j - 1);
      assert !Syncs(interval, inputs, j - 1) && !Fails(interval, inputs, j - 1);
    }
  }

  /** After the k-th failure in a row, and unless a sync intervenes, the next attempt to connect starts
      when at least the interval times 2^k has passed. */
  lemma {:induction false} NextAttemptIsLater(interval: int, inputs: seq<Input>, i: nat, j: nat)
    requires i < j < |inputs| && Fails(interval, inputs, i) && Quiet(interval, inputs, i, j)
    requires At(interval, inputs, j).state == Backoff && At(interval, inputs, j + 1).state == Connecting
    requires 0 <= interval && interval * Pow2(Failures(interval, inputs, i + 1)) <= MAX_INT64
    ensures inputs[j].now >= inputs[i].now + interval * Pow2(Failures(interval, inputs, i + 1))
  {
    DeadlineStays(interval, inputs, i, j);
    AtNext(interval, inputs, j);
  }

  // ---- The first delay ----

  /** Go's remainder, which has the sign of the dividend. */
  function Remainder(a: int, b: int): int
    requires b > 0
  {
    if a >= 0 then a % b else -((-a) % b)
  }

  function OffsetInterval(hash: nat, now: int, interval: int): int
    requires interval > 0
  {
    var base := Wrap(interval - Remainder(now, interval));
    var next := Wrap(base + hash % interval);
    if next > interval then next - interval else next
  }

  /** Modulo the interval all ticks of a worker start at the hash of its peer, the first within one
      interval, exactly if the sum of the two offsets does not wrap around. */
  lemma {:induction false} FirstTickIsOffset(hash: nat, now: int, interval: int)
    requires 0 <= now && 0 < interval <= MAX_INT64
    ensures
      var delay := OffsetInterval(hash, now, interval);
      if interval - now % interval + hash % interval <= MAX_INT64
      then 0 < delay <= interval && (now + delay) % interval == hash % interval
      else delay < 0
  {
    var q, r := now / interval, hash % interval;
    var delay := OffsetInterval(hash, now, interval);
    assert now == interval * q + now % interval;
    if interval - now % interval + r > MAX_INT64 {
      assert Wrap(interval - now % interval + r) == interval - now % interval + r - TWO_64;
    } else if interval - now % interval + r > interval {
      SameRemainder(now + delay, q, interval, r);
    } else {
      SameRemainder(now + delay, q + 1, interval, r);
    }
  }

  lemma {:induction false} SameRemainder(x: int, q: int, interval: int, r: int)
    requires 0 <= r < interval && x == interval * q + r
    ensures x % interval == r
  {
    ModOfMultiple(q, interval, r);
  }

  /** An interval of more than half the range can make the first delay negative. */
  lemma {:induction false} FirstDelayCanWrap()
    ensures OffsetInterval(2, 0, MAX_INT64) < 0
  {
    FirstTickIsOffset(2, 0, MAX_INT64);
  }
}
