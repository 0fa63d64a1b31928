/**
 The message queue of the traffic light simulation (`MessageQueue<T>`), with its
 mutex and condition variable abstracted away. The queue is the sequence of
 pending messages, oldest first; each operation is one atomic update of that
 sequence, and the blocking wait of `receive` becomes the precondition that the
 queue is non-empty.

 `Receive` models `receive` as written: it reads the front element and leaves
 the queue as it was. `ReceivePop` is the receive the comment on `receive`
 asks for ("pull them from the queue"), which also removes the front element;
 both are kept so that the difference can be stated.
 */
module MessageQueue {

  /** What the consumer received over a run of receives, and the queue at the end. */
  datatype Trace<T> = Trace(received: seq<T>, queue: seq<T>)

  /** A received message together with the queue as the receiver leaves it. */
  datatype Received<T> = Received(msg: T, queue: seq<T>)

  /** `send`: the message goes to the back; everything already queued keeps
      its place. */
  function Send<T>(q: seq<T>, msg: T): (r: seq<T>)
    ensures |r| == |q| + 1
    ensures r[|q|] == msg
    ensures r[..|q|] == q
  {
    q + [msg]
  }

  /** `receive` as written: it may only complete on a non-empty queue, hands
      back the oldest message and removes nothing. */
  function Receive<T>(q: seq<T>): (r: Received<T>)
    requires |q| > 0
    ensures r.msg == q[0]
    ensures r.queue == q
  {
    Received(q[0], q)
  }

  /** The receive the comment on `receive` asks for: the oldest message is
      handed back and pulled off the queue. */
  function ReceivePop<T>(q: seq<T>): (r: Received<T>)
    requires |q| > 0
    ensures r.msg == q[0]
    ensures [r.msg] + r.queue == q
    ensures |r.queue| == |q| - 1
  {
    Received(q[0], q[1..])
  }

  /** A receive right after a send returns the oldest message, which is the
      message just sent only when the queue was empty. */
  lemma ReceiveAfterSend<T>(q: seq<T>, msg: T)
    ensures Receive(Send(q, msg)).msg == if |q| == 0 then msg else q[0]
    ensures ReceivePop(Send(q, msg)).msg == if |q| == 0 then msg else q[0]
  {
  }

  /** Because `receive` removes nothing, two receives in a row hand back the
      same message and leave the same queue. */
  lemma ReceiveTwiceSame<T>(q: seq<T>)
    requires |q| > 0
    ensures Receive(Receive(q).queue).msg == Receive(q).msg
    ensures Receive(Receive(q).queue).queue == q
  {
  }

  /** The messages handed back by `n` consecutive receives as written, each on
      the queue the previous one left. */
  function ReceiveN<T>(q: seq<T>, n: nat): (got: seq<T>)
    requires |q| > 0
    decreases n
  {
    if n == 0 then [] else [Receive(q).msg] + ReceiveN(Receive(q).queue, n - 1)
  }

  /** Receiving `n` times as written returns the oldest message `n` times:
      nothing queued behind it is ever delivered. */
  lemma {:induction false} ReceiveNRepeatsFront<T>(q: seq<T>, n: nat)
    requires |q| > 0
    ensures |ReceiveN(q, n)| == n
    ensures forall i :: 0 <= i < n ==> ReceiveN(q, n)[i] == q[0]
    decreases n
  {
    if n > 0 {
      ReceiveNRepeatsFront(q, n - 1);
    }
  }

  /** The messages handed back by `n` consecutive receives that remove what
      they return, together with what is left. */
  function DrainPop<T>(q: seq<T>, n: nat): (t: Trace<T>)
    requires n <= |q|
    decreases n
  {
    if n == 0 then Trace([], q)
    else
      var first := ReceivePop(q);
      var rest := DrainPop(first.queue, n - 1);
      Trace([first.msg] + rest.received, rest.queue)
  }

  /** Receiving `n` times with removal hands back the `n` oldest messages in
      the order they were sent and leaves exactly the rest. */
  lemma {:induction false} DrainPopIsFifo<T>(q: seq<T>, n: nat)
    requires n <= |q|
    ensures DrainPop(q, n).received == q[..n]
    ensures DrainPop(q, n).queue == q[n..]
    decreases n
  {
    if n > 0 {
      DrainPopIsFifo(q[1..], n - 1);
      assert q[..n] == [q[0]] + q[1..][..n - 1];
      assert q[n..] == q[1..][n - 1..];
    }
  }

  /** One step of a producer or consumer thread on the queue. */
  datatype Op<T> = SendOp(msg: T) | ReceiveOp

  /** The messages sent by a schedule, in order. */
  function Sent<T>(ops: seq<Op<T>>): seq<T>
    decreases |ops|
  {
    if |ops| == 0 then []
    else match ops[0]
      case SendOp(m) => [m] + Sent(ops[1..])
      case ReceiveOp => Sent(ops[1..])
  }

  /** Runs a schedule of sends and receives against the queue, with `receive`
      as written. A receive scheduled on an empty queue finds its wait
      predicate false and stays parked, so it has no effect. */
  function Replay<T>(q: seq<T>, ops: seq<Op<T>>): (t: Trace<T>)
    decreases |ops|
  {
    if |ops| == 0 then Trace([], q)
    else match ops[0]
      case SendOp(m) => Replay(Send(q, m), ops[1..])
      case ReceiveOp =>
        if |q| == 0 then Replay(q, ops[1..])
        else
          var r := Receive(q);
          var t := Replay(r.queue, ops[1..]);
          Trace([r.msg] + t.received, t.queue)
  }

  /** The same schedule run against the queue whose receive removes the
      message it returns. */
  function ReplayPop<T>(q: seq<T>, ops: seq<Op<T>>): (t: Trace<T>)
    decreases |ops|
  {
    if |ops| == 0 then Trace([], q)
    else match ops[0]
      case SendOp(m) => ReplayPop(Send(q, m), ops[1..])
      case ReceiveOp =>
        if |q| == 0 then ReplayPop(q, ops[1..])
        else
          var r := ReceivePop(q);
          var t := ReplayPop(r.queue, ops[1..]);
          Trace([r.msg] + t.received, t.queue)
  }

  /** Every element of `s` is `x`. */
  ghost predicate AllAre<T>(s: seq<T>, x: T)
  {
    forall i :: 0 <= i < |s| ==> s[i] == x
  }

  /** As written, no interleaving of sends and receives ever removes a
      message, and every receive hands back the first message the queue ever
      held. */
  lemma {:induction false} ReplayKeepsEverything<T>(q: seq<T>, ops: seq<Op<T>>)
    ensures Replay(q, ops).queue == q + Sent(ops)
    ensures |Replay(q, ops).received| == 0
      || (|q + Sent(ops)| > 0 && AllAre(Replay(q, ops).received, (q + Sent(ops))[0]))
    decreases |ops|
  {
    if |ops| > 0 {
      match ops[0]
      case SendOp(m) =>
        ReplayKeepsEverything(Send(q, m), ops[1..]);
        assert Send(q, m) + Sent(ops[1..]) == q + Sent(ops);
      case ReceiveOp =>
        ReplayKeepsEverything(q, ops[1..]);
        assert Sent(ops) == Sent(ops[1..]);
        if |q| > 0 {
          var t := Replay(q, ops[1..]);
          assert Replay(q, ops).received == [q[0]] + t.received;
          assert (q + Sent(ops))[0] == q[0];
          assert (q + Sent(ops[1..]))[0] == q[0];
          assert AllAre([q[0]] + t.received, q[0]) by {
            assert |t.received| == 0 || AllAre(t.received, q[0]);
            forall i | 0 < i < |t.received| + 1
              ensures ([q[0]] + t.received)[i] == q[0]
            {
              assert ([q[0]] + t.received)[i] == t.received[i - 1];
            }
          }
        } else {
          assert Replay(q, ops) == Replay(q, ops[1..]);
        }
    }
  }

  /** With removal, every interleaving of sends and receives is FIFO with no
      loss and no duplication: what the consumer received, followed by what is
      still queued, is exactly what was queued at the start followed by what
      was sent, in order. */
  lemma {:induction false} ReplayPopIsFifo<T>(q: seq<T>, ops: seq<Op<T>>)
    ensures ReplayPop(q, ops).received + ReplayPop(q, ops).queue == q + Sent(ops)
    decreases |ops|
  {
    if |ops| > 0 {
      match ops[0]
      case SendOp(m) =>
        ReplayPopIsFifo(Send(q, m), ops[1..]);
        assert Send(q, m) + Sent(ops[1..]) == q + Sent(ops);
      case ReceiveOp =>
        assert Sent(ops) == Sent(ops[1..]);
        if |q| == 0 {
          ReplayPopIsFifo(q, ops[1..]);
          assert ReplayPop(q, ops) == ReplayPop(q, ops[1..]);
        } else {
          ReplayPopIsFifo(q[1..], ops[1..]);
          var t := ReplayPop(q[1..], ops[1..]);
          calc {
            ReplayPop(q, ops).received + ReplayPop(q, ops).queue;
            ([q[0]] + t.received) + t.queue;
            [q[0]] + (t.received + t.queue);
            [q[0]] + (q[1..] + Sent(ops[1..]));
            ([q[0]] + q[1..]) + Sent(ops);
            { assert [q[0]] + q[1..] == q; }
            q + Sent(ops);
          }
        }
    }
  }
}
