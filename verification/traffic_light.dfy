/**
 The traffic light of the simulation (`TrafficLight`): its current phase, the
 message queue it publishes phases on, one iteration of the endless loop of
 `cycleThroughPhases`, and `waitForGreen`.

 Threads, sleeps and the random generator are abstracted away. A sleep becomes
 a duration added to the iteration's elapsed time; the generator becomes a
 function `dist` from the number of values drawn so far to the next value the
 distribution yields, so a run is deterministic once `dist` is fixed.

 `CycleStep`, `WaitForGreen` and `Simulate` model the code as written.
 `Toggle`, `ToggleStep`, `WaitForGreenPop` and `SimulateFixed` model the
 behaviour the code's own comments ask for: the loop "toggles the current
 phase" once per cycle of 4 to 6 seconds, and `receive` pulls the message it
 returns from the queue. They are used to state what the written code fails
 to deliver.
 */
module TrafficLight {
  import MessageQueue

  /** `TrafficLightPhase`: the two phases a light can show. */
  datatype Phase = Red | Green

  /** The other phase. */
  function Flip(p: Phase): (r: Phase)
    ensures r != p
  {
    match p
    case Red => Green
    case Green => Red
  }

  /** The inclusive bounds of the uniform hold-duration distribution, and the
      fixed pause between the two halves of the loop body, in milliseconds. */
  const MinHoldMs: int := 4000
  const MaxHoldMs: int := 6000
  const PauseMs: int := 1

  /** A value the hold-duration distribution can yield. */
  type HoldMs = d: int | MinHoldMs <= d <= MaxHoldMs witness MinHoldMs

  /** A light: the phase it currently shows and the queue of phases it has
      published and not yet had removed. */
  datatype Light = Light(currentPhase: Phase, msgQueue: seq<Phase>)

  /** `getCurrentPhase`: reads the phase and nothing else; writing back what
      it read leaves the light as it was. */
  function GetCurrentPhase(l: Light): (p: Phase)
    ensures l.(currentPhase := p) == l
  {
    l.currentPhase
  }

  /** `setCurrentPhase`: the phase becomes `phase`; the queue is untouched. */
  function SetCurrentPhase(l: Light, phase: Phase): (r: Light)
    ensures GetCurrentPhase(r) == phase
    ensures r.msgQueue == l.msgQueue
  {
    l.(currentPhase := phase)
  }

  /** The accessor and the mutator agree: writing back what was read changes
      nothing, and a second write overrides the first entirely. */
  lemma GetSetRoundTrip(l: Light, p: Phase, p': Phase)
    ensures SetCurrentPhase(l, GetCurrentPhase(l)) == l
    ensures SetCurrentPhase(SetCurrentPhase(l, p), p') == SetCurrentPhase(l, p')
  {
  }

  /** The light after sending its current phase to its own queue. */
  function SendCurrentPhase(l: Light): (r: Light)
    ensures GetCurrentPhase(r) == GetCurrentPhase(l)
    ensures r.msgQueue == MessageQueue.Send(l.msgQueue, GetCurrentPhase(l))
  {
    l.(msgQueue := MessageQueue.Send(l.msgQueue, GetCurrentPhase(l)))
  }

  /** Part of one loop iteration: the light so far, how many durations have
      been drawn in all, the holds drawn in this iteration, the phases set in
      this iteration (in order) and the time it has taken. */
  datatype Iteration = Iteration(
    light: Light, drawn: nat, holds: seq<int>, switches: seq<Phase>, elapsedMs: int)

  /** One guarded branch of the loop body: if the light shows `from`, it draws
      the next duration, holds for it and switches to `to`; otherwise nothing
      happens. */
  function HoldThenSwitch(it: Iteration, from: Phase, to: Phase, dist: nat -> HoldMs): (r: Iteration)
    ensures GetCurrentPhase(it.light) == from ==>
      r.light == SetCurrentPhase(it.light, to)
      && r.drawn == it.drawn + 1
      && r.holds == it.holds + [dist(it.drawn) as int]
      && r.switches == it.switches + [to]
      && r.elapsedMs == it.elapsedMs + dist(it.drawn) as int
      && it.elapsedMs + MinHoldMs <= r.elapsedMs <= it.elapsedMs + MaxHoldMs
    ensures GetCurrentPhase(it.light) != from ==> r == it
  {
    if GetCurrentPhase(it.light) == from then
      var hold := dist(it.drawn);
      Iteration(SetCurrentPhase(it.light, to), it.drawn + 1, it.holds + [hold as int],
                it.switches + [to], it.elapsedMs + hold)
    else
      it
  }

  /** One iteration of the loop of `cycleThroughPhases` as written: a red
      light holds and turns green, then, after the pause, a green light holds
      and turns red, and then the current phase is sent. */
  function CycleStep(l: Light, dist: nat -> HoldMs, drawn: nat): (it: Iteration)
    // Both guarded branches can fire in the same iteration, so the light
    // always ends the iteration red and always sends red.
    ensures GetCurrentPhase(it.light) == Red
    ensures it.light.msgQueue == MessageQueue.Send(l.msgQueue, Red)
    ensures it.switches == if l.currentPhase == Red then [Green, Red] else [Red]
    // Each switch is preceded by a hold on the next value drawn.
    ensures |it.holds| == |it.switches|
    ensures it.drawn == drawn + |it.holds|
    ensures forall i :: 0 <= i < |it.holds| ==> it.holds[i] == dist(drawn + i) as int
    ensures forall i :: 0 <= i < |it.holds| ==> MinHoldMs <= it.holds[i] <= MaxHoldMs
    // The time taken is the sum of the sleeps requested: the holds and the pause.
    ensures l.currentPhase == Red ==>
      it.elapsedMs == dist(drawn) as int + PauseMs + dist(drawn + 1) as int
    ensures l.currentPhase == Green ==> it.elapsedMs == PauseMs + dist(drawn) as int
    ensures l.currentPhase == Red ==>
      2 * MinHoldMs + PauseMs <= it.elapsedMs <= 2 * MaxHoldMs + PauseMs
    ensures l.currentPhase == Green ==>
      MinHoldMs + PauseMs <= it.elapsedMs <= MaxHoldMs + PauseMs
  {
    var start := Iteration(l, drawn, [], [], 0);
    var afterRed := HoldThenSwitch(start, Red, Green, dist);
    var paused := afterRed.(elapsedMs := afterRed.elapsedMs + PauseMs);
    var afterGreen := HoldThenSwitch(paused, Green, Red, dist);
    afterGreen.(light := SendCurrentPhase(afterGreen.light))
  }

  /** The light after `n` iterations of the loop as written. */
  function Run(l: Light, n: nat, dist: nat -> HoldMs, drawn: nat): Light
    decreases n
  {
    if n == 0 then l
    else
      var it := CycleStep(l, dist, drawn);
      Run(it.light, n - 1, dist, it.drawn)
  }

  /** `n` red phases. */
  function Reds(n: nat): (s: seq<Phase>)
    ensures |s| == n && MessageQueue.AllAre(s, Red)
    decreases n
  {
    if n == 0 then [] else [Red] + Reds(n - 1)
  }

  /** However many iterations the loop runs, it ends red and all it has sent
      is red: green is never published. */
  lemma {:induction false} RunSendsOnlyRed(l: Light, n: nat, dist: nat -> HoldMs, drawn: nat)
    ensures n > 0 ==> GetCurrentPhase(Run(l, n, dist, drawn)) == Red
    ensures Run(l, n, dist, drawn).msgQueue == l.msgQueue + Reds(n)
    decreases n
  {
    if n > 0 {
      var it := CycleStep(l, dist, drawn);
      RunSendsOnlyRed(it.light, n - 1, dist, it.drawn);
      assert Run(l, n, dist, drawn) == Run(it.light, n - 1, dist, it.drawn);
      assert it.light.msgQueue == l.msgQueue + [Red];
      assert (l.msgQueue + [Red]) + Reds(n - 1) == l.msgQueue + Reds(n);
    }
  }

  /** From the second iteration on the loop always starts red, so the time
      between two consecutive sends is two holds and the pause, never a
      single hold. */
  lemma LaterCyclesTakeTwoHolds(l: Light, dist: nat -> HoldMs, drawn: nat)
    ensures var first := CycleStep(l, dist, drawn);
      var second := CycleStep(first.light, dist, first.drawn);
      && second.switches == [Green, Red]
      && second.elapsedMs == dist(first.drawn) as int + PauseMs + dist(first.drawn + 1) as int
      && 2 * MinHoldMs + PauseMs <= second.elapsedMs <= 2 * MaxHoldMs + PauseMs
      && second.elapsedMs > MaxHoldMs
  {
  }

  /** The light update of one iteration as the comment on
      `cycleThroughPhases` asks for: toggle to the other phase and send it. */
  function Toggle(l: Light): (r: Light)
    ensures GetCurrentPhase(r) == Flip(GetCurrentPhase(l))
    ensures r.msgQueue == MessageQueue.Send(l.msgQueue, Flip(GetCurrentPhase(l)))
  {
    SendCurrentPhase(SetCurrentPhase(l, Flip(GetCurrentPhase(l))))
  }

  /** One iteration with a single toggle: hold the current phase for one
      drawn duration, switch to the other one, pause, and send the new phase. */
  function ToggleStep(l: Light, dist: nat -> HoldMs, drawn: nat): (it: Iteration)
    ensures it.light == Toggle(l)
    ensures it.switches == [Flip(GetCurrentPhase(l))]
    ensures it.holds == [dist(drawn) as int] && it.drawn == drawn + 1
    ensures it.elapsedMs == dist(drawn) as int + PauseMs
    ensures MinHoldMs + PauseMs <= it.elapsedMs <= MaxHoldMs + PauseMs
  {
    var start := Iteration(l, drawn, [], [], 0);
    var held := HoldThenSwitch(start, GetCurrentPhase(l), Flip(GetCurrentPhase(l)), dist);
    var paused := held.(elapsedMs := held.elapsedMs + PauseMs);
    paused.(light := SendCurrentPhase(paused.light))
  }

  /** The light after `n` iterations with a single toggle each; the durations
      drawn do not affect it. */
  function RunToggle(l: Light, n: nat): Light
    decreases n
  {
    if n == 0 then l else RunToggle(Toggle(l), n - 1)
  }

  /** `n` phases alternating, starting with `first`. */
  function Alternating(first: Phase, n: nat): (s: seq<Phase>)
    ensures |s| == n
    decreases n
  {
    if n == 0 then [] else [first] + Alternating(Flip(first), n - 1)
  }

  /** Extending an alternating run at the back adds the phase its parity
      calls for. */
  lemma {:induction false} AlternatingSnoc(first: Phase, n: nat)
    ensures Alternating(first, n + 1)
      == Alternating(first, n) + [if n % 2 == 0 then first else Flip(first)]
    decreases n
  {
    if n > 0 {
      AlternatingSnoc(Flip(first), n - 1);
      var x := if (n - 1) % 2 == 0 then Flip(first) else Flip(Flip(first));
      var tail := Alternating(Flip(first), n - 1);
      assert Alternating(first, n + 1) == [first] + (tail + [x]);
      assert [first] + (tail + [x]) == ([first] + tail) + [x];
      ParityStep(first, n, x);
    }
  }

  /** With a single toggle per iteration, the loop publishes strictly
      alternating phases, starting with the phase after the initial one. */
  lemma {:induction false} RunToggleAlternates(l: Light, n: nat)
    ensures RunToggle(l, n).msgQueue == l.msgQueue + Alternating(Flip(GetCurrentPhase(l)), n)
    decreases n
  {
    if n > 0 {
      var p := GetCurrentPhase(l);
      RunToggleAlternates(Toggle(l), n - 1);
      var rest := Alternating(Flip(Flip(p)), n - 1);
      assert Alternating(Flip(p), n) == [Flip(p)] + rest;
      assert (l.msgQueue + [Flip(p)]) + rest == l.msgQueue + ([Flip(p)] + rest);
    }
  }

  /** With a single toggle per iteration, the loop ends showing the initial
      phase after an even number of iterations and the other one after an odd
      number. */
  lemma {:induction false} RunTogglePhase(l: Light, n: nat)
    ensures GetCurrentPhase(RunToggle(l, n))
      == if n % 2 == 0 then GetCurrentPhase(l) else Flip(GetCurrentPhase(l))
    decreases n
  {
    if n > 0 {
      var p := GetCurrentPhase(l);
      RunTogglePhase(Toggle(l), n - 1);
      ParityStep(p, n, GetCurrentPhase(RunToggle(Toggle(l), n - 1)));
    }
  }

  /** The parity step of `RunTogglePhase`, kept apart from the unfolding of
      the loop. */
  lemma ParityStep(p: Phase, n: nat, p': Phase)
    requires n > 0
    requires p' == if (n - 1) % 2 == 0 then Flip(p) else Flip(Flip(p))
    ensures p' == if n % 2 == 0 then p else Flip(p)
  {
    assert Flip(Flip(p)) == p;
  }

  /** No two consecutive phases of an alternating run are equal. */
  lemma {:induction false} AlternatingNeverRepeats(first: Phase, n: nat)
    ensures forall i :: 0 < i < n ==> Alternating(first, n)[i] != Alternating(first, n)[i - 1]
    decreases n
  {
    if n > 0 {
      var a := Alternating(first, n);
      var rest := Alternating(Flip(first), n - 1);
      AlternatingNeverRepeats(Flip(first), n - 1);
      forall i | 0 < i < n
        ensures a[i] != a[i - 1]
      {
        if i == 1 {
          assert a[1] == rest[0];
        } else {
          assert a[i] == rest[i - 1] && a[i - 1] == rest[i - 2];
        }
      }
    }
  }

  /** Consecutive phases published by the loop with a single toggle per
      iteration are never equal. */
  lemma RunToggleNeverRepeats(l: Light, n: nat)
    requires l.msgQueue == []
    ensures |RunToggle(l, n).msgQueue| == n
    ensures forall i :: 0 < i < n ==> RunToggle(l, n).msgQueue[i] != RunToggle(l, n).msgQueue[i - 1]
  {
    RunToggleAlternates(l, n);
    assert RunToggle(l, n).msgQueue == Alternating(Flip(GetCurrentPhase(l)), n);
    AlternatingNeverRepeats(Flip(GetCurrentPhase(l)), n);
  }

  /** `waitForGreen` as written, on a queue no other thread touches while it
      runs, allowed at most `fuel` receives. It returns exactly when the front
      of the queue is green: since a receive removes nothing, every receive
      sees the same front, and a red front keeps it waiting for ever. */
  method WaitForGreen(q: seq<Phase>, fuel: nat) returns (returned: bool, queue: seq<Phase>)
    ensures queue == q
    ensures returned <==> fuel > 0 && |q| > 0 && q[0] == Green
  {
    queue := q;
    returned := false;
    var i := 0;
    while i < fuel
      invariant 0 <= i <= fuel
      invariant queue == q
      invariant i > 0 ==> |q| > 0 && q[0] != Green
      decreases fuel - i
    {
      if |queue| == 0 {
        // The receive blocks on the empty queue and nothing will fill it.
        return;
      }
      var r := MessageQueue.Receive(queue);
      queue := r.queue;
      if r.msg == Green {
        returned := true;
        return;
      }
      i := i + 1;
    }
  }

  /** `waitForGreen` with a receive that removes what it returns, allowed at
      most `fuel` receives: it discards red phases from the front and returns
      right after taking off the first green one. */
  method WaitForGreenPop(q: seq<Phase>, fuel: nat) returns (returned: bool, consumed: nat, queue: seq<Phase>)
    ensures consumed <= |q| && consumed <= fuel
    ensures queue == q[consumed..]
    ensures returned <==> consumed > 0 && q[consumed - 1] == Green
    ensures forall j :: 0 <= j < consumed - 1 ==> q[j] == Red
    ensures !returned ==> consumed == if fuel < |q| then fuel else |q|
    ensures !returned ==> forall j :: 0 <= j < consumed ==> q[j] == Red
  {
    queue := q;
    returned := false;
    consumed := 0;
    while consumed < fuel
      invariant consumed <= |q| && consumed <= fuel
      invariant queue == q[consumed..]
      invariant forall j :: 0 <= j < consumed ==> q[j] == Red
      decreases fuel - consumed
    {
      if |queue| == 0 {
        // The receive blocks on the empty queue and nothing will fill it.
        return;
      }
      var r := MessageQueue.ReceivePop(queue);
      queue := r.queue;
      consumed := consumed + 1;
      assert q[consumed..] == q[consumed - 1..][1..];
      if r.msg == Green {
        returned := true;
        return;
      }
    }
  }

  /** The input that separates the two receives: after red and then green
      are sent, two receives as written return red twice and green is never
      delivered, while two receives that remove what they return deliver red
      and then green. */
  lemma ReceiveLosesGreen()
    ensures MessageQueue.ReceiveN(MessageQueue.Send(MessageQueue.Send([], Red), Green), 2) == [Red, Red]
    ensures MessageQueue.DrainPop(MessageQueue.Send(MessageQueue.Send([], Red), Green), 2).received == [Red, Green]
  {
    var q := MessageQueue.Send(MessageQueue.Send([], Red), Green);
    assert q == [Red, Green];
    MessageQueue.ReceiveNRepeatsFront(q, 2);
    MessageQueue.DrainPopIsFifo(q, 2);
  }

  /** The two threads of the simulation: the one running
      `cycleThroughPhases` and one running `waitForGreen`. */
  datatype Actor = Cycler | Waiter

  /** The shared state: the light (with its queue), how many durations have
      been drawn, and whether `waitForGreen` is still waiting. */
  datatype System = System(light: Light, drawn: nat, waiting: bool)

  /** One scheduled step as written: the cycler runs one loop iteration, or
      the waiter runs one receive (parked on an empty queue, and finished once
      it has seen green). */
  function Step(s: System, a: Actor, dist: nat -> HoldMs): (s': System)
    ensures a == Cycler ==>
      s'.light.msgQueue == MessageQueue.Send(s.light.msgQueue, Red) && s'.waiting == s.waiting
    ensures a == Waiter ==> s'.light == s.light
    ensures a == Waiter && s.waiting && |s.light.msgQueue| > 0 ==>
      s'.waiting == (s.light.msgQueue[0] != Green)
    ensures a == Waiter && (!s.waiting || |s.light.msgQueue| == 0) ==> s' == s
  {
    match a
    case Cycler =>
      var it := CycleStep(s.light, dist, s.drawn);
      System(it.light, it.drawn, s.waiting)
    case Waiter =>
      if !s.waiting || |s.light.msgQueue| == 0 then s
      else
        var r := MessageQueue.Receive(s.light.msgQueue);
        System(s.light.(msgQueue := r.queue), s.drawn, r.msg != Green)
  }

  /** A whole schedule of steps as written. */
  function Simulate(s: System, schedule: seq<Actor>, dist: nat -> HoldMs): System
    decreases |schedule|
  {
    if |schedule| == 0 then s else Simulate(Step(s, schedule[0], dist), schedule[1..], dist)
  }

  /** `n` receives by the waiter and nothing else. */
  function Waiters(n: nat): (s: seq<Actor>)
    ensures |s| == n
    decreases n
  {
    if n == 0 then [] else [Waiter] + Waiters(n - 1)
  }

  /** A schedule of `n` waiter steps alone behaves as the sequential
      `WaitForGreen` with `n` receives: the light and its queue are untouched,
      and the waiter stops waiting exactly when it was waiting, made at least
      one receive, and the front of the queue is green. */
  lemma {:induction false} SimulateWaitersIsWaitForGreen(s: System, n: nat, dist: nat -> HoldMs)
    ensures Simulate(s, Waiters(n), dist).light == s.light
    ensures Simulate(s, Waiters(n), dist).drawn == s.drawn
    ensures Simulate(s, Waiters(n), dist).waiting
      <==> s.waiting && !(n > 0 && |s.light.msgQueue| > 0 && s.light.msgQueue[0] == Green)
    decreases n
  {
    if n > 0 {
      var s' := Step(s, Waiter, dist);
      assert Waiters(n)[0] == Waiter && Waiters(n)[1..] == Waiters(n - 1);
      assert Simulate(s, Waiters(n), dist) == Simulate(s', Waiters(n - 1), dist);
      SimulateWaitersIsWaitForGreen(s', n - 1, dist);
    }
  }

  /** While the queue holds only red phases, a single step of either thread
      keeps the waiter waiting and the queue all red. */
  lemma StepKeepsWaiting(s: System, a: Actor, dist: nat -> HoldMs)
    requires s.waiting && MessageQueue.AllAre(s.light.msgQueue, Red)
    ensures Step(s, a, dist).waiting
    ensures MessageQueue.AllAre(Step(s, a, dist).light.msgQueue, Red)
  {
    if a == Cycler {
      var q := s.light.msgQueue;
      var q' := Step(s, a, dist).light.msgQueue;
      assert q' == q + [Red];
      forall i | 0 <= i < |q'|
        ensures q'[i] == Red
      {
        if i < |q| {
          assert q'[i] == q[i];
        }
      }
    }
  }

  /** While the queue holds only red phases, no interleaving of the two
      threads lets `waitForGreen` return, and the queue stays all red. */
  lemma {:induction false} SimulateKeepsWaiting(s: System, schedule: seq<Actor>, dist: nat -> HoldMs)
    requires s.waiting && MessageQueue.AllAre(s.light.msgQueue, Red)
    ensures Simulate(s, schedule, dist).waiting
    ensures MessageQueue.AllAre(Simulate(s, schedule, dist).light.msgQueue, Red)
    decreases |schedule|
  {
    if |schedule| > 0 {
      var s' := Step(s, schedule[0], dist);
      StepKeepsWaiting(s, schedule[0], dist);
      SimulateKeepsWaiting(s', schedule[1..], dist);
    }
  }

  /** As written, a light that starts with an empty queue never lets
      `waitForGreen` return, whatever the phase it starts in, the durations
      drawn and the interleaving of the two threads. This follows from every
      message sent being red; that `receive` removes nothing plays no part. */
  lemma WaitForGreenNeverReturns(l: Light, drawn: nat, schedule: seq<Actor>, dist: nat -> HoldMs)
    requires l.msgQueue == []
    ensures Simulate(System(l, drawn, true), schedule, dist).waiting
  {
    SimulateKeepsWaiting(System(l, drawn, true), schedule, dist);
  }

  /** How many receives the corrected `waitForGreen` makes on `q` when
      allowed at most `n`: it stops after the first green one, or when the
      queue or the allowance runs out. */
  function PopsUntilGreen(q: seq<Phase>, n: nat): nat
    decreases n
  {
    if n == 0 || |q| == 0 then 0
    else if q[0] == Green then 1
    else 1 + PopsUntilGreen(q[1..], n - 1)
  }

  /** One scheduled step with both corrections: the cycler toggles once
      and the waiter's receive removes what it returns. */
  function StepFixed(s: System, a: Actor, dist: nat -> HoldMs): System
  {
    match a
    case Cycler =>
      var it := ToggleStep(s.light, dist, s.drawn);
      System(it.light, it.drawn, s.waiting)
    case Waiter =>
      if !s.waiting || |s.light.msgQueue| == 0 then s
      else
        var r := MessageQueue.ReceivePop(s.light.msgQueue);
        System(s.light.(msgQueue := r.queue), s.drawn, r.msg != Green)
  }

  /** A whole schedule of steps with both corrections. */
  function SimulateFixed(s: System, schedule: seq<Actor>, dist: nat -> HoldMs): System
    decreases |schedule|
  {
    if |schedule| == 0 then s else SimulateFixed(StepFixed(s, schedule[0], dist), schedule[1..], dist)
  }

  /** Once `waitForGreen` has returned it stays returned. */
  lemma {:induction false} SimulateFixedStaysReturned(s: System, schedule: seq<Actor>, dist: nat -> HoldMs)
    requires !s.waiting
    ensures !SimulateFixed(s, schedule, dist).waiting
    decreases |schedule|
  {
    if |schedule| > 0 {
      SimulateFixedStaysReturned(StepFixed(s, schedule[0], dist), schedule[1..], dist);
    }
  }

  /** A schedule of `n` waiter steps alone, with both corrections, behaves as
      `WaitForGreenPop` with `n` receives: the waiter takes `c` phases off the
      front, all red but possibly the last, and leaves the rest; it has
      returned exactly when the last one it took was green; and if it is
      still waiting it took every phase it was allowed to, all of them red.
      A waiter that has already returned changes nothing. */
  lemma {:induction false} SimulateFixedWaitersIsWaitForGreenPop(s: System, n: nat, dist: nat -> HoldMs)
    ensures !s.waiting ==> SimulateFixed(s, Waiters(n), dist) == s
    ensures s.waiting ==>
      var q := s.light.msgQueue;
      var c := PopsUntilGreen(q, n);
      var r := SimulateFixed(s, Waiters(n), dist);
      && c <= |q| && c <= n
      && r.light == s.light.(msgQueue := q[c..])
      && r.drawn == s.drawn
      && (!r.waiting <==> c > 0 && q[c - 1] == Green)
      && (forall j :: 0 <= j < c - 1 ==> q[j] == Red)
      && (r.waiting ==> c == (if n < |q| then n else |q|))
      && (r.waiting ==> forall j :: 0 <= j < c ==> q[j] == Red)
    decreases n
  {
    if n > 0 {
      var s' := StepFixed(s, Waiter, dist);
      assert Waiters(n)[0] == Waiter && Waiters(n)[1..] == Waiters(n - 1);
      assert SimulateFixed(s, Waiters(n), dist) == SimulateFixed(s', Waiters(n - 1), dist);
      SimulateFixedWaitersIsWaitForGreenPop(s', n - 1, dist);
      var q := s.light.msgQueue;
      if s.waiting && |q| > 0 && q[0] == Red {
        var c' := PopsUntilGreen(q[1..], n - 1);
        assert PopsUntilGreen(q, n) == 1 + c';
        assert q[1 + c'..] == q[1..][c'..];
        forall j | 0 <= j < c'
          ensures q[j + 1] == q[1..][j]
        {
        }
      }
    }
  }

  /** The waiter has received nothing yet: the queue holds every phase sent so
      far, `k` of them alternating from green, and the light shows the last
      one (red before any send). */
  predicate Untouched(s: System, k: nat)
  {
    && s.waiting
    && s.light.msgQueue == Alternating(Green, k)
    && GetCurrentPhase(s.light) == if k % 2 == 0 then Red else Green
  }

  /** A cycler step on an untouched system sends the next alternating phase. */
  lemma StepFixedCyclerExtends(s: System, k: nat, dist: nat -> HoldMs)
    requires Untouched(s, k)
    ensures Untouched(StepFixed(s, Cycler, dist), k + 1)
  {
    var s' := StepFixed(s, Cycler, dist);
    assert s'.light.msgQueue == Alternating(Green, k) + [Flip(GetCurrentPhase(s.light))];
    AlternatingSnoc(Green, k);
    assert (k + 1) % 2 == 0 <==> k % 2 != 0;
  }

  /** Once the cycler has sent at least one phase, the waiter's next receive
      returns: the first phase sent is green. */
  lemma {:induction false} SimulateFixedReturnsAfterSend(
    s: System, k: nat, schedule: seq<Actor>, j: nat, dist: nat -> HoldMs)
    requires Untouched(s, k) && k > 0
    requires j < |schedule| && schedule[j] == Waiter
    ensures !SimulateFixed(s, schedule, dist).waiting
    decreases |schedule|
  {
    match schedule[0]
    case Cycler =>
      StepFixedCyclerExtends(s, k, dist);
      SimulateFixedReturnsAfterSend(StepFixed(s, Cycler, dist), k + 1, schedule[1..], j - 1, dist);
    case Waiter =>
      assert s.light.msgQueue[0] == Green;
      SimulateFixedStaysReturned(StepFixed(s, Waiter, dist), schedule[1..], dist);
  }

  /** With both corrections, once the waiter has received nothing yet
      (as for a light that starts red with an empty queue), `waitForGreen`
      returns under every interleaving in which the cycler runs one iteration
      before some later step of the waiter. */
  lemma {:induction false} WaitForGreenFixedReturns(
    s: System, k: nat, schedule: seq<Actor>, i: nat, j: nat, dist: nat -> HoldMs)
    requires Untouched(s, k)
    requires i < j < |schedule| && schedule[i] == Cycler && schedule[j] == Waiter
    ensures !SimulateFixed(s, schedule, dist).waiting
    decreases |schedule|
  {
    if k > 0 {
      SimulateFixedReturnsAfterSend(s, k, schedule, j, dist);
    } else {
      var s' := StepFixed(s, schedule[0], dist);
      match schedule[0]
      case Cycler =>
        StepFixedCyclerExtends(s, k, dist);
        SimulateFixedReturnsAfterSend(s', k + 1, schedule[1..], j - 1, dist);
      case Waiter =>
        assert s' == s;
        WaitForGreenFixedReturns(s', k, schedule[1..], i - 1, j - 1, dist);
    }
  }

  /** The input that separates the two: a light starts red with an empty
      queue, the cycler runs one iteration and the waiter then receives once.
      As written the waiter is still waiting; with both corrections it has
      returned. */
  lemma CycleThenWaitSeparates(dist: nat -> HoldMs)
    ensures Simulate(System(Light(Red, []), 0, true), [Cycler, Waiter], dist).waiting
    ensures !SimulateFixed(System(Light(Red, []), 0, true), [Cycler, Waiter], dist).waiting
  {
    var start := System(Light(Red, []), 0, true);
    WaitForGreenNeverReturns(Light(Red, []), 0, [Cycler, Waiter], dist);
    WaitForGreenFixedReturns(start, 0, [Cycler, Waiter], 0, 1, dist);
  }
}
