# Traffic light and message queue, modelled in Dafny

This project models the core of a small concurrent traffic-light simulation.
`MessageQueue<T>` is a blocking queue, meant to be FIFO, guarded by a mutex and a condition
variable. `TrafficLight` keeps a current phase (red or green). A background
thread runs `cycleThroughPhases` for ever and sends phases into the queue.
`waitForGreen` receives from the queue until it sees green.

Two modules:

- `MessageQueue` (message_queue.dfy): the queue is an immutable `seq<T>`, oldest
  message first. `Send` appends a message. `Receive` is `receive` as written:
  its blocking wait becomes the precondition `|q| > 0`, and it returns the
  front message without removing it. `ReceivePop` is the receive the comment on
  `receive` asks for ("pull them from the queue", src/TrafficLight.cpp:13-15),
  which does remove the front message. `Replay` and `ReplayPop` run
  any interleaving of sends and receives against each version.
- `TrafficLight` (traffic_light.dfy):
  - `Phase` is the phase, and a `Light` is a phase plus the light's queue.
  - `GetCurrentPhase` and `SetCurrentPhase` are the accessor and the mutator.
  - `CycleStep` is one iteration of the loop in `cycleThroughPhases`, as written.
  - `WaitForGreen` is `waitForGreen` as a receive loop.
  - `Simulate` runs any interleaving of the cycling thread and the waiting thread.
  - `Toggle`, `ToggleStep`, `WaitForGreenPop` and `SimulateFixed` are the
    behaviour the code's own comments ask for: the loop "toggles the current
    phase" once per cycle of 4 to 6 seconds (src/TrafficLight.cpp:69-71), and
    `receive` pulls the message it returns from the queue.

The members named "as written" are the model of the code. The corrected
members exist so that the gap between the code and the intent its comments
state can be stated and proved (see "## Findings").

How time and randomness appear in the model:

- Each sleep becomes a duration added to an iteration's `elapsedMs`. So
  `elapsedMs` is the total of the sleeps requested, not wall-clock time: the
  work between sleeps and any oversleeping are not counted.
- `PauseMs` is the 1 ms pause between the two halves of the loop body.
- `dist(gen)` becomes a parameter `dist: nat -> HoldMs`. It maps the number of
  values drawn so far to the next value drawn. `HoldMs` is the subset type of
  integers in the closed range [4000, 6000], the bounds of
  `uniform_int_distribution<>(4000, 6000)`.

Where the source's comments and its code disagree, the model follows the code:

- The comment on `receive` asks it to pull messages from the queue
  (src/TrafficLight.cpp:13-15). The code moves out of `_queue.front()` and
  never pops it (src/TrafficLight.cpp:18).
- The comment on `cycleThroughPhases` asks it to toggle the current phase
  once per cycle (src/TrafficLight.cpp:69-71), so the published phases would
  alternate. In the code both guarded branches run in the same iteration: a
  red light turns green and then red again before anything is sent. Every
  message sent is therefore red (src/TrafficLight.cpp:81-98).
- The same comment puts the cycle duration between 4 and 6 seconds. From the
  second iteration on, the code always starts red, so consecutive sends are
  two holds plus the pause apart (`LaterCyclesTakeTwoHolds`).
- `receive` is a template member, but its local variable is declared as
  `TrafficLightPhase` (src/TrafficLight.cpp:18). So `receive` compiles only
  for element types that convert to `TrafficLightPhase` and back, not for
  `int`; the program itself only uses `MessageQueue<TrafficLightPhase>`. The
  model's `Receive` is generic in the element type; the example that
  separates the two receives uses phases.

## Model

| member | source | states |
|---|---|---|
| MessageQueue.Send | src/TrafficLight.cpp:22-31 | send grows the queue by exactly one, puts the message last, and leaves every earlier message in place and in order |
| MessageQueue.Receive | src/TrafficLight.cpp:10-20 | receive can only complete on a non-empty queue; it returns the oldest message and the queue afterwards equals the queue before |
| MessageQueue.ReceiveAfterSend | src/TrafficLight.cpp:10-31 | a receive right after a send returns the message just sent only if the queue was empty, and otherwise the older front message |
| MessageQueue.ReceiveTwiceSame | src/TrafficLight.cpp:16-19 | two consecutive receives return the same message and leave the queue unchanged |
| MessageQueue.ReceiveNRepeatsFront | src/TrafficLight.cpp:16-19 | n consecutive receives return the front message n times; nothing queued behind it is ever delivered |
| MessageQueue.ReplayKeepsEverything | src/TrafficLight.cpp:10-31 | under any interleaving of sends and receives, the final queue is the initial queue followed by everything sent, and every receive returns the first message the queue ever held |
| MessageQueue.ReceivePop | src/TrafficLight.cpp:10-20 | the intended receive returns the oldest message and the remaining queue is the rest, one shorter |
| MessageQueue.DrainPopIsFifo | src/TrafficLight.cpp:10-20 | n intended receives return the n oldest messages in send order and leave exactly the rest |
| MessageQueue.ReplayPopIsFifo | src/TrafficLight.cpp:10-31 | with the intended receive, under any interleaving, what was received followed by what is still queued equals the initial queue followed by everything sent: FIFO, with no loss and no duplication |
| TrafficLight.GetCurrentPhase | src/TrafficLight.cpp:49-52 | reading the phase has no effect: writing back the phase read leaves the light, queue included, exactly as it was |
| TrafficLight.SetCurrentPhase | src/TrafficLight.cpp:54-57 | after setting phase p, reading the phase gives p, and the queue is unchanged |
| TrafficLight.GetSetRoundTrip | src/TrafficLight.cpp:49-57 | writing back the phase just read changes nothing; a second write completely overrides the first |
| TrafficLight.SendCurrentPhase | src/TrafficLight.cpp:98 | sending the current phase appends it to the light's queue and leaves the phase unchanged |
| TrafficLight.HoldThenSwitch | src/TrafficLight.cpp:81-97 | a guarded branch fires only when the light shows its phase; it then draws the next duration, holds for exactly the drawn duration, which lies in 4000–6000 ms, and switches; otherwise nothing changes |
| TrafficLight.CycleStep | src/TrafficLight.cpp:78-100 | from either phase, one iteration ends red and appends exactly one message, red, leaving the queue otherwise unchanged. From red it passes through green first (switches Green then Red). Each hold is the next drawn value in [4000, 6000]. The sleeps requested add up to the two holds plus the 1 ms pause from red (8001–12001 ms) and one hold plus the pause from green (4001–6001 ms) |
| TrafficLight.RunSendsOnlyRed | src/TrafficLight.cpp:78-100 | after n ≥ 1 iterations the light is red, and the queue is the old queue followed by n red phases |
| TrafficLight.LaterCyclesTakeTwoHolds | src/TrafficLight.cpp:76-97 | every iteration after the first starts red, so it switches green then red, and its requested sleeps add up to two holds plus the pause (8001–12001 ms), more than any single hold |
| TrafficLight.WaitForGreen | src/TrafficLight.cpp:37-47 | with receives as written, waitForGreen returns iff the queue's front is green; it never changes the queue and otherwise waits however many receives it makes |
| TrafficLight.ReceiveLosesGreen | src/TrafficLight.cpp:13-19 | after red and then green are sent, two receives as written return red twice, while two receives that pull from the queue return red and then green |
| TrafficLight.Step | src/TrafficLight.cpp:37-100 | a cycler step appends exactly one red phase to the queue and leaves the waiter's state alone; a waiter step never changes the light; a waiting receive on a non-empty queue ends the wait iff the front is green; a finished or blocked waiter step changes nothing |
| TrafficLight.SimulateWaitersIsWaitForGreen | src/TrafficLight.cpp:37-47 | n waiter steps alone leave the light untouched and end the wait iff there was a wait, at least one receive, and a green front: the same condition under which WaitForGreen returns |
| TrafficLight.SimulateKeepsWaiting | src/TrafficLight.cpp:37-100 | while the queue holds only red phases, no interleaving of the cycling and waiting threads lets waitForGreen return, and the queue stays all red |
| TrafficLight.WaitForGreenNeverReturns | src/TrafficLight.cpp:37-100 | a light that starts with an empty queue never lets waitForGreen return, whatever its initial phase, the durations drawn and the thread interleaving |
| TrafficLight.Toggle | src/TrafficLight.cpp:81-98 | the intended light update: the phase becomes the other phase, and exactly that new phase is appended to the queue |
| TrafficLight.ToggleStep | src/TrafficLight.cpp:67-100 | the intended iteration draws one duration, holds for it (4000–6000 ms), switches once, and its requested sleeps add up to that hold plus the 1 ms pause; its light update is Toggle |
| TrafficLight.RunTogglePhase | src/TrafficLight.cpp:78-100 | after n intended iterations the light shows its initial phase if n is even, and the other phase if n is odd |
| TrafficLight.RunToggleAlternates | src/TrafficLight.cpp:78-100 | n intended iterations append n strictly alternating phases, starting with the phase after the initial one |
| TrafficLight.RunToggleNeverRepeats | src/TrafficLight.cpp:78-100 | from an empty queue, n intended iterations publish n phases, and no two consecutive ones are equal |
| TrafficLight.WaitForGreenPop | src/TrafficLight.cpp:37-47 | with the intended receive, waitForGreen discards red phases from the front. It returns right after removing the first green one, and the queue is left without what it consumed |
| TrafficLight.SimulateFixedWaitersIsWaitForGreenPop | src/TrafficLight.cpp:37-47 | with the intended receive, n waiter steps alone take a red prefix off the queue, ending at the first green one, and leave the rest. The wait ends exactly when the last phase taken was green. A waiter still waiting took min(n, queue length) phases, all red. These are the conditions WaitForGreenPop promises |
| TrafficLight.SimulateFixedReturnsAfterSend | src/TrafficLight.cpp:37-100 | intended model: once a phase has been sent and nothing has been received yet, the waiter's next receive makes waitForGreen return |
| TrafficLight.WaitForGreenFixedReturns | src/TrafficLight.cpp:37-100 | intended model: starting red with nothing received yet, waitForGreen returns under every interleaving in which a cycler iteration comes before some later waiter step |
| TrafficLight.CycleThenWaitSeparates | src/TrafficLight.cpp:37-100 | start red with an empty queue, run one cycle, then one receive: as written the waiter is still waiting, while in the intended model it has returned |

## Left out

- The mutex, `unique_lock`/`lock_guard`, condition-variable wait and `notify_one` are left out (src/TrafficLight.cpp:16-17, 28-30). Each queue operation is one atomic update of the sequence. A blocked receive is the precondition `|q| > 0`. In an interleaving, a receive scheduled on an empty queue has no effect, as the thread stays parked.
- Thread creation in `simulate` (src/TrafficLight.cpp:63) is left out. The two threads appear only as the `Cycler` and `Waiter` steps of a schedule.
- The infinite loops of `cycleThroughPhases` and `waitForGreen` are not modelled as non-termination. `Run` and `Simulate` take a bounded number of iterations or a finite schedule, and `WaitForGreen` takes a `fuel` bound on its receives. Its "never returns" statement holds for every fuel.
- `WaitForGreen`, `WaitForGreenPop`: a sequential call sees a queue no other thread changes. On an empty queue it stops as blocked for ever. Sends made while it waits are covered by `Simulate` and `SimulateFixed` instead.
- `sleep_until`, `sleep_for` and wall-clock time are left out. Only the durations are kept, as an iteration's `elapsedMs`.
- `std::random_device`, `std::mt19937` and the distribution's uniformity are left out. These are foreign library code. The drawn values are the arbitrary function `dist` into [4000, 6000].
- `std::cout` logging (src/TrafficLight.cpp:85, 96, 99) is left out. It is output with no effect on the state.
- Move semantics of `send(std::move(...))` and of `receive` are left out. Phases are values, so a moved-from value does not matter in the model.
- TrafficLight.h is not part of this model. It holds declarations only, including the base-class thread vector.

## Findings

| source | as written | input that shows it | evidently intended | confidence | as-written member | corrected member |
|---|---|---|---|---|---|---|
| src/TrafficLight.cpp:18 | `receive` moves out of the front message but never removes it, so every later receive returns the same message | send Red, send Green, then receive twice: the receives return Red and Red, and Green is never delivered | receive removes the front message it returns (its comment speaks of pulling messages from the queue) | high; not executed | TrafficLight.ReceiveLosesGreen | MessageQueue.ReplayPopIsFifo |
| src/TrafficLight.cpp:81-98 | both guarded branches run in one iteration, so a red light turns green and back to red before the send; only red is ever sent | light red, one iteration: phases set are green then red, and the message sent is red | each iteration holds the current phase, switches once, and sends the new phase, so the published phases alternate | medium; not executed | TrafficLight.RunSendsOnlyRed | TrafficLight.RunToggleAlternates |
| src/TrafficLight.cpp:42-45 | because of the row above, every phase sent is red, so `waitForGreen` never returns, whether or not `receive` removes what it returns | light red with an empty queue, schedule: one cycler iteration, then one receive; the waiter is still waiting | `waitForGreen` returns once a green phase has been published | high; not executed | TrafficLight.WaitForGreenNeverReturns | TrafficLight.WaitForGreenFixedReturns |
