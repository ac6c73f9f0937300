/** The protocol of one IPC port (kernel/ipc/ipc.c) as a state machine.

    An atomic step is one critical section under the port lock, or the moment a thread
    becomes blocked in the scheduler (kernel/sched/scheduler.c).  Any number of threads send,
    receive and try to receive, in any order.  A thread that must wait is first put on a
    waiting list, then releases the lock, and only then blocks; `window` holds the threads in
    between.  `thread_unblock` does nothing to a thread that is not yet blocked, so an unblock
    that arrives in this window is lost. */
module IpcModel {

  type Tid = nat

  datatype Message = Message(senderTid: Tid, msgId: nat, kind: nat, payload: seq<bv8>)

  datatype State = State(
    max: nat,
    queue: seq<Message>,
    senders: seq<Tid>,            // waiting_senders, head of the list first
    receivers: seq<Tid>,          // waiting_receivers, head of the list first
    window: set<Tid>,             // lock released, not yet blocked
    wokenSenders: set<Tid>,       // unblocked, not yet resumed
    wokenReceivers: set<Tid>,
    lostSenders: set<Tid>,        // taken off the list by an unblock that had no effect
    lostReceivers: set<Tid>,
    pending: map<Tid, Message>,   // argument of every thread waiting inside ipc_send
    failedResumes: nat            // woken senders that then found no memory
  )

  /** `waitAlloc` and `nodeAlloc` are the answers of kmalloc for the list node and the message. */
  datatype Action =
    | Send(tid: Tid, msg: Message, waitAlloc: bool, nodeAlloc: bool)
    | ResumeSend(tid: Tid, nodeAlloc: bool)
    | Receive(tid: Tid, waitAlloc: bool)
    | ResumeReceive(tid: Tid, waitAlloc: bool)
    | TryReceive(tid: Tid)
    | Block(tid: Tid)

  /** A message passed to ipc_send, with the thread that passed it. */
  datatype Submission = Submission(caller: Tid, msg: Message)

  datatype Outcome = Sent | Got(msg: Message) | Parked | Failed | Blocked

  function Init(max: nat): State {
    State(max, [], [], [], {}, {}, {}, {}, {}, map[], 0)
  }

  /** Threads inside a blocking call: they make no other call until it returns. */
  predicate Busy(s: State, t: Tid) {
    t in s.senders || t in s.receivers || Away(s, t)
  }

  function Stamp(m: Message, t: Tid): Message {
    m.(senderTid := t)
  }

  // ---------------------------------------------------------------- steps

  predicate Enabled(s: State, a: Action) {
    match a
    case Send(t, _, _, _) => !Busy(s, t)
    case ResumeSend(t, _) => t in s.wokenSenders && t in s.pending
    case Receive(t, _) => !Busy(s, t)
    case ResumeReceive(t, _) => t in s.wokenReceivers
    case TryReceive(t) => !Busy(s, t)
    case Block(t) => t in s.window
  }

  function WakeReceiver(s: State): State {
    if s.receivers == [] then s
    else
      var t := s.receivers[0];
      if t in s.window then
        s.(receivers := s.receivers[1..], lostReceivers := s.lostReceivers + {t})
      else
        s.(receivers := s.receivers[1..], wokenReceivers := s.wokenReceivers + {t})
  }

  function WakeSender(s: State): State {
    if s.senders == [] then s
    else
      var t := s.senders[0];
      if t in s.window then
        s.(senders := s.senders[1..], lostSenders := s.lostSenders + {t})
      else
        s.(senders := s.senders[1..], wokenSenders := s.wokenSenders + {t})
  }

  function Enqueue(s: State, t: Tid, m: Message): State {
    WakeReceiver(s.(queue := s.queue + [Stamp(m, t)]))
  }

  function Dequeue(s: State): State
    requires s.queue != []
  {
    WakeSender(s.(queue := s.queue[1..]))
  }

  function ParkReceiver(s: State, t: Tid, waitAlloc: bool): (State, Outcome) {
    if waitAlloc then (s.(receivers := [t] + s.receivers, window := s.window + {t}), Parked)
    else (s, Failed)
  }

  /** One critical section: the new port state and what the caller sees. */
  function Apply(s: State, a: Action): (State, Outcome)
    requires Enabled(s, a)
  {
    match a
    case Send(t, m, waitAlloc, nodeAlloc) =>
      if |s.queue| >= s.max then
        if waitAlloc then
          (s.(senders := [t] + s.senders, window := s.window + {t}, pending := s.pending[t := m]), Parked)
        else (s, Failed)
      else if nodeAlloc then (Enqueue(s, t, m), Sent)
      else (s, Failed)
    case ResumeSend(t, nodeAlloc) =>
      // fullness is not checked again
      var s1 := s.(wokenSenders := s.wokenSenders - {t}, pending := s.pending - {t});
      if nodeAlloc then (Enqueue(s1, t, s.pending[t]), Sent)
      else (s1.(failedResumes := s.failedResumes + 1), Failed)
    case Receive(t, waitAlloc) =>
      if s.queue == [] then ParkReceiver(s, t, waitAlloc) else (Dequeue(s), Got(s.queue[0]))
    case ResumeReceive(t, waitAlloc) =>
      var s1 := s.(wokenReceivers := s.wokenReceivers - {t});
      if s.queue == [] then ParkReceiver(s1, t, waitAlloc) else (Dequeue(s1), Got(s.queue[0]))
    case TryReceive(t) =>
      if s.queue == [] then (s, Failed) else (Dequeue(s), Got(s.queue[0]))
    case Block(t) => (s.(window := s.window - {t}), Blocked)
  }

  // ---------------------------------------------------------------- runs

  predicate IsRun(s: State, acts: seq<Action>)
    decreases |acts|
  {
    acts == [] || (Enabled(s, acts[0]) && IsRun(Apply(s, acts[0]).0, acts[1..]))
  }

  function Exec(s: State, acts: seq<Action>): State
    requires IsRun(s, acts)
    decreases |acts|
  {
    if acts == [] then s else Exec(Apply(s, acts[0]).0, acts[1..])
  }

  /** What a step adds to the accepted messages: the caller and the message it passed in. */
  function Accepted(s: State, a: Action): seq<Submission>
    requires Enabled(s, a)
  {
    if Apply(s, a).1 != Sent then []
    else match a
      case Send(t, m, _, _) => [Submission(t, m)]
      case ResumeSend(t, _) => [Submission(t, s.pending[t])]
      case _ => []
  }

  /** What a step hands to a receiver. */
  function Handed(s: State, a: Action): seq<Message>
    requires Enabled(s, a)
  {
    var out := Apply(s, a).1;
    if out.Got? then [out.msg] else []
  }

  /** The messages the calls of a run submitted successfully, with the thread that called. */
  function Submitted(s: State, acts: seq<Action>): seq<Submission>
    requires IsRun(s, acts)
    decreases |acts|
  {
    if acts == [] then [] else Accepted(s, acts[0]) + Submitted(Apply(s, acts[0]).0, acts[1..])
  }

  /** The messages the calls of a run handed to receivers, in order. */
  function Delivered(s: State, acts: seq<Action>): seq<Message>
    requires IsRun(s, acts)
    decreases |acts|
  {
    if acts == [] then [] else Handed(s, acts[0]) + Delivered(Apply(s, acts[0]).0, acts[1..])
  }

  /** A message says who sent it, and otherwise is what that thread passed. */
  predicate SentBy(m: Message, x: Submission) {
    m.senderTid == x.caller && m.msgId == x.msg.msgId && m.kind == x.msg.kind && m.payload == x.msg.payload
  }

  function StampAll(xs: seq<Submission>): (ms: seq<Message>)
    ensures |ms| == |xs| && forall i :: 0 <= i < |xs| ==> SentBy(ms[i], xs[i])
  {
    seq(|xs|, i requires 0 <= i < |xs| => Stamp(xs[i].msg, xs[i].caller))
  }

  /** Only threads of `ts` call ipc_send. */
  predicate SendersIn(acts: seq<Action>, ts: set<Tid>) {
    forall i :: 0 <= i < |acts| && acts[i].Send? ==> acts[i].tid in ts
  }

  /** No step of the run unblocks a thread that is still in its window. */
  predicate RaceFree(s: State, acts: seq<Action>)
    requires IsRun(s, acts)
    decreases |acts|
  {
    acts == [] ||
    (!HitsWindow(s, acts[0]) && RaceFree(Apply(s, acts[0]).0, acts[1..]))
  }

  /** The step issues an unblock for a list head that has not blocked yet. */
  predicate HitsWindow(s: State, a: Action)
    requires Enabled(s, a)
  {
    var out := Apply(s, a).1;
    || (out == Sent && s.receivers != [] && s.receivers[0] in s.window)
    || (out.Got? && s.senders != [] && s.senders[0] in s.window)
  }

  // ---------------------------------------------------------------- invariants

  predicate Distinct(ts: seq<Tid>) {
    forall i, j :: 0 <= i < j < |ts| ==> ts[i] != ts[j]
  }

  /** Every waiting thread is in exactly one place. */
  ghost predicate Placed(s: State) {
    && Distinct(s.senders) && Distinct(s.receivers)
    && (forall t :: t in s.senders ==> t !in s.receivers && !Away(s, t))
    && (forall t :: t in s.receivers ==> !Away(s, t))
    && s.wokenSenders !! s.wokenReceivers && s.wokenSenders !! s.lostSenders
    && s.wokenSenders !! s.lostReceivers && s.wokenReceivers !! s.lostSenders
    && s.wokenReceivers !! s.lostReceivers && s.lostSenders !! s.lostReceivers
    && (forall t :: t in s.window ==> t in s.senders || t in s.receivers || t in s.lostSenders || t in s.lostReceivers)
    && (forall t :: t in s.pending <==> t in s.senders || t in s.wokenSenders || t in s.lostSenders)
  }

  /** Taken off its waiting list and not resumed. */
  predicate Away(s: State, t: Tid) {
    t in s.wokenSenders || t in s.wokenReceivers || t in s.lostSenders || t in s.lostReceivers
  }

  /** A parked receiver is backed: each queued message has an unblock that was issued for it. */
  predicate ReceiversBacked(s: State) {
    s.receivers != [] ==> |s.wokenReceivers| + |s.lostReceivers| >= |s.queue|
  }

  /** A parked sender is backed: the queue is full once every issued unblock is accounted for. */
  predicate SendersBacked(s: State) {
    s.senders != [] ==> |s.queue| + |s.wokenSenders| + |s.lostSenders| + s.failedResumes >= s.max
  }

  predicate Bounded(s: State, ts: set<Tid>) {
    && s.pending.Keys <= ts
    && |s.queue| + |s.wokenSenders| + 1 <= s.max + |ts|
  }

  ghost predicate Inv(s: State, ts: set<Tid>) {
    Placed(s) && ReceiversBacked(s) && SendersBacked(s) && Bounded(s, ts)
  }

  // ---------------------------------------------------------------- each step keeps the invariant

  lemma Tail(ts: seq<Tid>)
    requires ts != [] && Distinct(ts)
    ensures Distinct(ts[1..]) && ts[0] !in ts[1..]
    ensures forall t :: t in ts <==> t == ts[0] || t in ts[1..]
  {
    assert ts == [ts[0]] + ts[1..];
  }

  lemma Cons(t: Tid, ts: seq<Tid>)
    requires Distinct(ts) && t !in ts
    ensures Distinct([t] + ts)
    ensures forall u :: u in [t] + ts <==> u == t || u in ts
  {
  }

  lemma WakeReceiverPlaced(s: State)
    requires Placed(s)
    ensures Placed(WakeReceiver(s))
    ensures s.receivers != [] ==> s.receivers[0] !in s.wokenReceivers + s.lostReceivers
  {
    if s.receivers != [] {
      Tail(s.receivers);
    }
  }

  lemma WakeSenderPlaced(s: State)
    requires Placed(s)
    ensures Placed(WakeSender(s))
    ensures s.senders != [] ==> s.senders[0] !in s.wokenSenders + s.lostSenders
  {
    if s.senders != [] {
      Tail(s.senders);
    }
  }

  /** A wake shortens the list by its head, which becomes woken or lost. */
  lemma WakeReceiverCounts(s: State)
    requires s.receivers != [] ==> s.receivers[0] !in s.wokenReceivers && s.receivers[0] !in s.lostReceivers
    ensures var r := WakeReceiver(s); r == s.(receivers := r.receivers, wokenReceivers := r.wokenReceivers,
                                              lostReceivers := r.lostReceivers)
    ensures s.receivers == [] ==> WakeReceiver(s) == s
    ensures var r := WakeReceiver(s); s.receivers != [] ==>
              (&& |r.receivers| == |s.receivers| - 1
               && |r.wokenReceivers| == |s.wokenReceivers| + (if s.receivers[0] in s.window then 0 else 1)
               && |r.lostReceivers| == |s.lostReceivers| + (if s.receivers[0] in s.window then 1 else 0))
  {
  }

  lemma WakeSenderCounts(s: State)
    requires s.senders != [] ==> s.senders[0] !in s.wokenSenders && s.senders[0] !in s.lostSenders
    ensures var r := WakeSender(s); r == s.(senders := r.senders, wokenSenders := r.wokenSenders,
                                            lostSenders := r.lostSenders)
    ensures s.senders == [] ==> WakeSender(s) == s
    ensures var r := WakeSender(s); s.senders != [] ==>
              (&& |r.senders| == |s.senders| - 1
               && |r.wokenSenders| == |s.wokenSenders| + (if s.senders[0] in s.window then 0 else 1)
               && |r.lostSenders| == |s.lostSenders| + (if s.senders[0] in s.window then 1 else 0))
  {
  }

  lemma WakeReceiverInv(s: State, ts: set<Tid>)
    requires Placed(s) && SendersBacked(s) && Bounded(s, ts)
    requires s.receivers != [] ==> |s.wokenReceivers| + |s.lostReceivers| + 1 >= |s.queue|
    ensures Inv(WakeReceiver(s), ts)
  {
    WakeReceiverPlaced(s);
    WakeReceiverCounts(s);
  }

  /** After a dequeue: the slot is handed to the sender that is woken, if there is one. */
  lemma WakeSenderInv(s: State, ts: set<Tid>)
    requires Placed(s) && ReceiversBacked(s)
    requires s.pending.Keys <= ts && |s.queue| + |s.wokenSenders| + 2 <= s.max + |ts|
    requires s.senders != [] ==> |s.queue| + |s.wokenSenders| + |s.lostSenders| + s.failedResumes + 1 >= s.max
    ensures Inv(WakeSender(s), ts)
  {
    WakeSenderPlaced(s);
    WakeSenderCounts(s);
  }

  lemma SubsetCardinality(a: set<Tid>, b: set<Tid>)
    requires a <= b
    ensures |a| <= |b|
    ensures a < b ==> |a| < |b|
  {
    assert b == a + (b - a);
    assert |b| == |a| + |b - a|;
    if a < b {
      assert b - a != {};
    }
  }

  lemma EnqueueInv(s: State, t: Tid, m: Message, ts: set<Tid>)
    requires Placed(s) && ReceiversBacked(s) && s.pending.Keys <= ts
    requires |s.queue| + |s.wokenSenders| + 2 <= s.max + |ts|
    requires s.senders != [] ==> |s.queue| + |s.wokenSenders| + |s.lostSenders| + s.failedResumes + 1 >= s.max
    ensures Inv(Enqueue(s, t, m), ts)
  {
    WakeReceiverInv(s.(queue := s.queue + [Stamp(m, t)]), ts);
  }

  lemma SendStep(s: State, a: Action, ts: set<Tid>)
    requires Inv(s, ts) && a.Send? && Enabled(s, a) && a.tid in ts
    ensures Inv(Apply(s, a).0, ts)
  {
    if |s.queue| >= s.max {
      Cons(a.tid, s.senders);
    } else {
      assert s.wokenSenders <= s.pending.Keys;
      assert a.tid !in s.pending.Keys;
      SubsetCardinality(s.wokenSenders, ts);
      if a.nodeAlloc {
        EnqueueInv(s, a.tid, a.msg, ts);
      }
    }
  }

  lemma ResumeSendStep(s: State, a: Action, ts: set<Tid>)
    requires Inv(s, ts) && a.ResumeSend? && Enabled(s, a)
    ensures Inv(Apply(s, a).0, ts)
  {
    var s1 := s.(wokenSenders := s.wokenSenders - {a.tid}, pending := s.pending - {a.tid});
    assert |s1.wokenSenders| == |s.wokenSenders| - 1;
    assert s1.pending.Keys == s.pending.Keys - {a.tid};
    assert Placed(s1);
    if a.nodeAlloc {
      EnqueueInv(s1, a.tid, s.pending[a.tid], ts);
    }
  }

  lemma DequeueInv(s: State, ts: set<Tid>)
    requires Placed(s) && SendersBacked(s) && Bounded(s, ts) && s.queue != []
    requires s.receivers != [] ==> |s.wokenReceivers| + |s.lostReceivers| + 1 >= |s.queue|
    ensures Inv(Dequeue(s), ts)
  {
    WakeSenderInv(s.(queue := s.queue[1..]), ts);
  }

  lemma ParkReceiverInv(s: State, t: Tid, waitAlloc: bool, ts: set<Tid>)
    requires Placed(s) && SendersBacked(s) && Bounded(s, ts) && s.queue == [] && !Busy(s, t)
    ensures Inv(ParkReceiver(s, t, waitAlloc).0, ts)
  {
    if waitAlloc {
      Cons(t, s.receivers);
    }
  }

  lemma ReceiveStep(s: State, a: Action, ts: set<Tid>)
    requires Inv(s, ts) && (a.Receive? || a.ResumeReceive? || a.TryReceive?) && Enabled(s, a)
    ensures Inv(Apply(s, a).0, ts)
  {
    var s1 := if a.ResumeReceive? then s.(wokenReceivers := s.wokenReceivers - {a.tid}) else s;
    if a.ResumeReceive? {
      assert |s1.wokenReceivers| == |s.wokenReceivers| - 1;
    }
    assert Placed(s1);
    if s.queue == [] {
      if !a.TryReceive? {
        ParkReceiverInv(s1, a.tid, a.waitAlloc, ts);
      }
    } else {
      DequeueInv(s1, ts);
    }
  }

  lemma StepKeepsInv(s: State, a: Action, ts: set<Tid>)
    requires Inv(s, ts) && Enabled(s, a)
    requires a.Send? ==> a.tid in ts
    ensures Inv(Apply(s, a).0, ts)
  {
    match a
    case Send(_, _, _, _) => SendStep(s, a, ts);
    case ResumeSend(_, _) => ResumeSendStep(s, a, ts);
    case Block(_) =>
    case _ => ReceiveStep(s, a, ts);
  }

  lemma {:induction false} RunKeepsInv(s: State, acts: seq<Action>, ts: set<Tid>)
    requires Inv(s, ts) && IsRun(s, acts) && SendersIn(acts, ts)
    ensures Inv(Exec(s, acts), ts)
    decreases |acts|
  {
    if acts != [] {
      StepKeepsInv(s, acts[0], ts);
      assert forall i :: 0 <= i < |acts| - 1 ==> acts[1..][i] == acts[i + 1];
      RunKeepsInv(Apply(s, acts[0]).0, acts[1..], ts);
    }
  }

  /** The invariant holds in every state reachable by any interleaving of any threads. */
  lemma Reachable(max: nat, acts: seq<Action>, ts: set<Tid>)
    requires max >= 1 && IsRun(Init(max), acts) && SendersIn(acts, ts) && ts != {}
    ensures Inv(Exec(Init(max), acts), ts)
    ensures Exec(Init(max), acts).max == max
  {
    assert |ts| >= 1 by { SubsetCardinality({}, ts); }
    RunKeepsInv(Init(max), acts, ts);
    MaxFixed(Init(max), acts);
  }

  lemma {:induction false} MaxFixed(s: State, acts: seq<Action>)
    requires IsRun(s, acts)
    ensures Exec(s, acts).max == s.max
    decreases |acts|
  {
    if acts != [] {
      MaxFixed(Apply(s, acts[0]).0, acts[1..]);
    }
  }

  // ---------------------------------------------------------------- what the invariant means

  lemma {:induction false} LostStays(s: State, acts: seq<Action>)
    requires IsRun(s, acts)
    ensures s.lostSenders <= Exec(s, acts).lostSenders
    ensures s.lostReceivers <= Exec(s, acts).lostReceivers
    decreases |acts|
  {
    if acts != [] {
      LostStays(Apply(s, acts[0]).0, acts[1..]);
    }
  }

  /** A run strands a thread exactly when one of its steps unblocks a thread inside its window. */
  lemma {:induction false} NoneLostIffRaceFree(s: State, acts: seq<Action>)
    requires IsRun(s, acts) && s.lostSenders == {} && s.lostReceivers == {}
    ensures RaceFree(s, acts) <==> Exec(s, acts).lostSenders == {} && Exec(s, acts).lostReceivers == {}
    decreases |acts|
  {
    if acts != [] {
      var s1 := Apply(s, acts[0]).0;
      if HitsWindow(s, acts[0]) {
        if s.receivers != [] && Apply(s, acts[0]).1 == Sent {
          assert s.receivers[0] in s1.lostReceivers;
        } else {
          assert s.senders[0] in s1.lostSenders;
        }
        LostStays(s1, acts[1..]);
      } else {
        NoneLostIffRaceFree(s1, acts[1..]);
      }
    }
  }

  function AllSenders(acts: seq<Action>): set<Tid> {
    set i | 0 <= i < |acts| && acts[i].Send? :: acts[i].tid
  }

  /** Every message beside a parked receiver is matched by an unblock, taken or lost. */
  lemma ReceiverWakeupAccount(max: nat, acts: seq<Action>)
    requires max >= 1 && IsRun(Init(max), acts)
    ensures var s := Exec(Init(max), acts);
            s.receivers != [] ==> |s.wokenReceivers| + |s.lostReceivers| >= |s.queue|
  {
    Reachable(max, acts, AllSenders(acts) + {0});
  }

  /** With n sending threads the queue, counting the senders already let in, holds at most
      max + n - 1 messages; a single sender never exceeds max. */
  lemma QueueBound(max: nat, acts: seq<Action>, ts: set<Tid>)
    requires max >= 1 && IsRun(Init(max), acts) && SendersIn(acts, ts) && ts != {}
    ensures var s := Exec(Init(max), acts);
            |s.queue| + |s.wokenSenders| <= max + |ts| - 1
    ensures |ts| == 1 ==> |Exec(Init(max), acts).queue| <= max
  {
    Reachable(max, acts, ts);
  }

  lemma StepConserves(s: State, a: Action)
    requires Enabled(s, a)
    ensures s.queue + StampAll(Accepted(s, a)) == Handed(s, a) + Apply(s, a).0.queue
  {
    var (s1, out) := Apply(s, a);
    if out == Sent {
      var p := Accepted(s, a)[0];
      assert Accepted(s, a) == [p];
      assert StampAll([p]) == [Stamp(p.msg, p.caller)];
    }
  }

  /** What was accepted, stamped with the thread that really sent it, is what was delivered
      followed by what is queued, in order. */
  lemma {:induction false} Conservation(s: State, acts: seq<Action>)
    requires IsRun(s, acts)
    ensures s.queue + StampAll(Submitted(s, acts)) == Delivered(s, acts) + Exec(s, acts).queue
    decreases |acts|
  {
    if acts != [] {
      var s1 := Apply(s, acts[0]).0;
      var rest := Submitted(s1, acts[1..]);
      StepConserves(s, acts[0]);
      Conservation(s1, acts[1..]);
      Chained(s.queue, StampAll(Accepted(s, acts[0])), StampAll(rest), Handed(s, acts[0]), s1.queue,
              Delivered(s1, acts[1..]), Exec(s1, acts[1..]).queue);
      assert StampAll(Accepted(s, acts[0]) + rest) == StampAll(Accepted(s, acts[0])) + StampAll(rest);
    }
  }

  /** Two conservation equations in a row. */
  lemma Chained<T>(q0: seq<T>, in0: seq<T>, in1: seq<T>, out0: seq<T>, q1: seq<T>, out1: seq<T>, q2: seq<T>)
    requires q0 + in0 == out0 + q1 && q1 + in1 == out1 + q2
    ensures q0 + (in0 + in1) == (out0 + out1) + q2
  {
    assert q0 + (in0 + in1) == (q0 + in0) + in1;
    assert (out0 + q1) + in1 == out0 + (q1 + in1);
    assert out0 + (out1 + q2) == (out0 + out1) + q2;
  }

  lemma ConservationFromStart(max: nat, acts: seq<Action>)
    requires IsRun(Init(max), acts)
    ensures StampAll(Submitted(Init(max), acts))
            == Delivered(Init(max), acts) + Exec(Init(max), acts).queue
  {
    Conservation(Init(max), acts);
  }

  // ---------------------------------------------------------------- what a receiver can rely on

  /** Over every run from a new port the k-th message that was delivered or is still queued names the
      caller of the k-th accepted submission as its sender and carries that caller's id, kind and
      payload. */
  lemma SendersAreGenuine(max: nat, acts: seq<Action>, k: nat)
    requires IsRun(Init(max), acts)
    ensures var seen := Delivered(Init(max), acts) + Exec(Init(max), acts).queue;
            var sent := Submitted(Init(max), acts);
            |seen| == |sent| && (k < |sent| ==> SentBy(seen[k], sent[k]))
  {
    ConservationFromStart(max, acts);
  }

  datatype Passed = Nothing | Passed(msg: Message)

  /** The message of the last call of ipc_send by t, given the one before the run. */
  function LastPassed(acts: seq<Action>, t: Tid, before: Passed): Passed
    decreases |acts|
  {
    if acts == [] then before
    else LastPassed(acts[1..], t, if acts[0].Send? && acts[0].tid == t then Passed(acts[0].msg) else before)
  }

  lemma {:induction false} PendingFrom(s: State, acts: seq<Action>, ts: set<Tid>, t: Tid, before: Passed)
    requires Inv(s, ts) && IsRun(s, acts) && SendersIn(acts, ts)
    requires t in s.pending ==> before == Passed(s.pending[t])
    ensures t in Exec(s, acts).pending ==> LastPassed(acts, t, before) == Passed(Exec(s, acts).pending[t])
    decreases |acts|
  {
    if acts != [] {
      var now := if acts[0].Send? && acts[0].tid == t then Passed(acts[0].msg) else before;
      PendingStep(s, acts[0], t, before);
      StepKeepsInv(s, acts[0], ts);
      assert forall i :: 0 <= i < |acts| - 1 ==> acts[1..][i] == acts[i + 1];
      PendingFrom(Apply(s, acts[0]).0, acts[1..], ts, t, now);
    }
  }

  lemma PendingStep(s: State, a: Action, t: Tid, before: Passed)
    requires Placed(s) && Enabled(s, a) && (t in s.pending ==> before == Passed(s.pending[t]))
    ensures var now := if a.Send? && a.tid == t then Passed(a.msg) else before;
            t in Apply(s, a).0.pending ==> now == Passed(Apply(s, a).0.pending[t])
  {
  }

  /** A woken sender submits the message of its own last call. */
  lemma ResumedIsPassed(max: nat, acts: seq<Action>, a: Action)
    requires max >= 1 && IsRun(Init(max), acts) && a.ResumeSend? && a.nodeAlloc && Enabled(Exec(Init(max), acts), a)
    ensures var x := Accepted(Exec(Init(max), acts), a);
            |x| == 1 && x[0].caller == a.tid && LastPassed(acts, a.tid, Nothing) == Passed(x[0].msg)
  {
    var ts := AllSenders(acts) + {0};
    Reachable(max, [], ts);
    PendingFrom(Init(max), acts, ts, a.tid, Nothing);
  }

  /** Which step a thread sees end in which way: a receiver takes the head of a non-empty queue, a
      sender gets in when there is room or it was woken, and a call fails only for want of memory or,
      without waiting, for want of a message. */
  lemma OutcomeIff(s: State, a: Action)
    requires Enabled(s, a)
    ensures var out := Apply(s, a).1; var receives := a.Receive? || a.ResumeReceive? || a.TryReceive?;
            && (out.Got? <==> receives && s.queue != [])
            && (out.Got? ==> out.msg == s.queue[0])
            && (out == Sent <==> ((a.Send? && |s.queue| < s.max) || a.ResumeSend?) && a.nodeAlloc)
            && (out == Parked <==> (|| (a.Send? && |s.queue| >= s.max && a.waitAlloc)
                                    || (receives && !a.TryReceive? && s.queue == [] && a.waitAlloc)))
            && (out == Blocked <==> a.Block?)
            && (out == Sent <==> Accepted(s, a) != [])
            && (out == Sent ==> Accepted(s, a)[0].caller == a.tid && (a.Send? ==> Accepted(s, a)[0].msg == a.msg))
  {
  }

  /** Threads wait on stacks, the last to park on top.  A send unblocks the top receiver and a
      receive the top sender, and nothing else unblocks; an unblock takes effect exactly when its
      thread has blocked. */
  lemma WaitersIff(s: State, a: Action)
    requires Enabled(s, a)
    ensures var (t, out) := Apply(s, a);
            && t.receivers == (if out == Parked && !a.Send? then [a.tid] + s.receivers
                               else if out == Sent && s.receivers != [] then s.receivers[1..] else s.receivers)
            && t.senders == (if out == Parked && a.Send? then [a.tid] + s.senders
                             else if out.Got? && s.senders != [] then s.senders[1..] else s.senders)
    ensures var (t, out) := Apply(s, a);
            && (out == Sent && s.receivers != [] ==>
                  var u := s.receivers[0]; u in if u in s.window then t.lostReceivers else t.wokenReceivers)
            && (out.Got? && s.senders != [] ==>
                  var u := s.senders[0]; u in if u in s.window then t.lostSenders else t.wokenSenders)
  {
  }

  // ---------------------------------------------------------------- the bound is reached

  lemma {:induction false} RunConcat(s: State, a: seq<Action>, b: seq<Action>)
    requires IsRun(s, a) && IsRun(Exec(s, a), b)
    ensures IsRun(s, a + b) && Exec(s, a + b) == Exec(Exec(s, a), b)
    decreases |a|
  {
    if a == [] {
      assert a + b == b;
    } else {
      RunConcat(Apply(s, a[0]).0, a[1..], b);
      assert (a + b)[1..] == a[1..] + b;
    }
  }

  lemma RunSnoc(s: State, acts: seq<Action>, a: Action)
    requires IsRun(s, acts) && Enabled(Exec(s, acts), a)
    ensures IsRun(s, acts + [a]) && Exec(s, acts + [a]) == Apply(Exec(s, acts), a).0
  {
    var t := Exec(s, acts);
    assert [a][1..] == [];
    assert IsRun(Apply(t, a).0, [a][1..]);
    RunConcat(s, acts, [a]);
  }

  lemma SendersConcat(a: seq<Action>, ta: set<Tid>, b: seq<Action>, tb: set<Tid>, ts: set<Tid>)
    requires SendersIn(a, ta) && SendersIn(b, tb) && ta <= ts && tb <= ts
    ensures SendersIn(a + b, ts)
  {
    forall i | 0 <= i < |a + b| && (a + b)[i].Send?
      ensures (a + b)[i].tid in ts
    {
      if i < |a| {
        assert a[i].Send?;
      } else {
        assert b[i - |a|].Send?;
      }
    }
  }

  predicate Calm(s: State) {
    s.senders == [] && s.receivers == [] && s.window == {} && s.wokenReceivers == {}
    && s.lostSenders == {} && s.lostReceivers == {}
  }

  function Below(n: nat): (r: set<Tid>)
    ensures |r| == n
    ensures forall t: Tid :: t in r <==> t < n
  {
    if n == 0 then {} else Below(n - 1) + {n - 1}
  }

  /** Thread 0 alone fills the queue. */
  lemma {:induction false} FillRun(max: nat, k: nat, m: Message) returns (acts: seq<Action>)
    requires k <= max
    ensures IsRun(Init(max), acts) && SendersIn(acts, {0})
    ensures var s := Exec(Init(max), acts);
            && Calm(s) && s.max == max && |s.queue| == k
            && s.wokenSenders == {} && s.pending == map[] && s.failedResumes == 0
  {
    if k == 0 {
      acts := [];
    } else {
      acts := FillRun(max, k - 1, m);
      RunSnoc(Init(max), acts, Send(0, m, true, true));
      acts := acts + [Send(0, m, true, true)];
    }
  }

  /** Queue full, threads 1..n-1 woken, everybody else idle. */
  predicate Saturated(s: State, max: nat, n: nat) {
    && Calm(s) && s.max == max && |s.queue| == max
    && s.wokenSenders == Below(n) - {0} && s.pending.Keys == s.wokenSenders
  }

  lemma SaturateNext(max: nat, acts: seq<Action>, n: nat, m: Message) returns (more: seq<Action>)
    requires max >= 1 && n >= 1 && IsRun(Init(max), acts) && SendersIn(acts, Below(n))
    requires Saturated(Exec(Init(max), acts), max, n)
    ensures IsRun(Init(max), more) && SendersIn(more, Below(n + 1))
    ensures Saturated(Exec(Init(max), more), max, n + 1)
  {
    more := acts + Overtake(n, m);
    var r := SaturateStep(Exec(Init(max), acts), n, m);
    RunConcat(Init(max), acts, Overtake(n, m));
    SendersConcat(acts, Below(n), Overtake(n, m), {0, n}, Below(n + 1));
    assert r.wokenSenders == Below(n + 1) - {0};
  }

  lemma SaturateBase(max: nat, m: Message) returns (acts: seq<Action>)
    ensures IsRun(Init(max), acts) && SendersIn(acts, Below(1))
    ensures Saturated(Exec(Init(max), acts), max, 1)
  {
    acts := FillRun(max, max, m);
    assert Below(1) == {0};
  }

  /** Threads 1..n-1 park one by one; each time a receiver takes a message and wakes the new
      sender, thread 0 refills the slot before the woken sender runs. */
  lemma {:induction false} SaturateRun(max: nat, n: nat, m: Message) returns (acts: seq<Action>)
    requires max >= 1 && n >= 1
    ensures IsRun(Init(max), acts) && SendersIn(acts, Below(n))
    ensures Saturated(Exec(Init(max), acts), max, n)
  {
    if n == 1 {
      acts := SaturateBase(max, m);
    } else {
      var before := SaturateRun(max, n - 1, m);
      acts := SaturateNext(max, before, n - 1, m);
    }
  }

  function Overtake(t: Tid, m: Message): (acts: seq<Action>)
    ensures SendersIn(acts, {0, t})
  {
    [Send(t, m, true, true), Block(t), TryReceive(t + 1), Send(0, m, true, true)]
  }

  lemma SaturateStep(s: State, t: Tid, m: Message) returns (r: State)
    requires Calm(s) && s.max >= 1 && |s.queue| == s.max && t !in s.wokenSenders && t != 0
    requires 0 !in s.wokenSenders && t + 1 !in s.wokenSenders
    ensures IsRun(s, Overtake(t, m)) && r == Exec(s, Overtake(t, m))
    ensures Calm(r) && r.max == s.max && |r.queue| == s.max && r.wokenSenders == s.wokenSenders + {t}
    ensures r.pending == s.pending[t := m]
  {
    var acts := Overtake(t, m);
    var s1 := Apply(s, acts[0]).0;
    var s2 := Apply(s1, acts[1]).0;
    var s3 := Apply(s2, acts[2]).0;
    assert s3.senders == [] && s3.wokenSenders == s.wokenSenders + {t};
    r := Apply(s3, acts[3]).0;
    RunSnoc(s, [], acts[0]);
    assert [] + [acts[0]] == acts[..1];
    RunSnoc(s, acts[..1], acts[1]);
    assert acts[..1] + [acts[1]] == acts[..2];
    RunSnoc(s, acts[..2], acts[2]);
    assert acts[..2] + [acts[2]] == acts[..3];
    RunSnoc(s, acts[..3], acts[3]);
    assert acts[..3] + [acts[3]] == acts;
  }

  /** All woken senders resume; none checks whether the queue is full. */
  lemma {:induction false} ResumeAll(s: State) returns (acts: seq<Action>)
    requires Calm(s) && s.pending.Keys == s.wokenSenders
    ensures IsRun(s, acts) && SendersIn(acts, {})
    ensures |Exec(s, acts).queue| == |s.queue| + |s.wokenSenders|
    decreases |s.wokenSenders|
  {
    if s.wokenSenders == {} {
      acts := [];
    } else {
      var t :| t in s.wokenSenders;
      var a := ResumeSend(t, true);
      var s1 := Apply(s, a).0;
      assert s1.pending.Keys == s1.wokenSenders;
      assert |s1.wokenSenders| == |s.wokenSenders| - 1;
      var rest := ResumeAll(s1);
      acts := [a] + rest;
      assert acts[1..] == rest;
    }
  }

  /** The bound of QueueBound is exact: for every number of senders some run puts
      max + n - 1 messages in the queue.  With two or more senders the limit max is passed. */
  lemma QueueBoundReached(max: nat, n: nat) returns (acts: seq<Action>)
    requires max >= 1 && n >= 1
    ensures IsRun(Init(max), acts) && SendersIn(acts, Below(n))
    ensures |Exec(Init(max), acts).queue| == max + n - 1
  {
    var m := Message(0, 0, 0, []);
    acts := SaturateRun(max, n, m);
    var s := Exec(Init(max), acts);
    assert |s.wokenSenders| == n - 1 by {
      assert s.wokenSenders + {0} == Below(n);
    }
    var more := ResumeAll(s);
    RunConcat(Init(max), acts, more);
    acts := acts + more;
  }
}
