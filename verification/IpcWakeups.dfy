/** Lost wake-ups of one IPC port (kernel/ipc/ipc.c over kernel/sched/scheduler.c): what becomes
    of a thread whose unblock is lost, and exactly which runs keep the two promises of the
    waiting lists.  A parked receiver is backed when a woken receiver is on its way to every
    queued message; a parked sender is backed when the queue, counting the senders already let
    in, is full. */
module IpcWakeups {
  import opened IpcModel

  // ---------------------------------------------------------------- runs, state by state

  lemma {:induction false} PrefixRun(s: State, acts: seq<Action>, n: nat)
    requires IsRun(s, acts) && n <= |acts|
    ensures IsRun(s, acts[..n])
    decreases n
  {
    if n > 0 {
      PrefixRun(Apply(s, acts[0]).0, acts[1..], n - 1);
      assert acts[..n][1..] == acts[1..][..n - 1];
    }
  }

  /** The state after the first n steps. */
  function At(s: State, acts: seq<Action>, n: nat): State
    requires IsRun(s, acts) && n <= |acts|
  {
    PrefixRun(s, acts, n);
    Exec(s, acts[..n])
  }

  lemma AtNext(s: State, acts: seq<Action>, n: nat)
    requires IsRun(s, acts) && n < |acts|
    ensures Enabled(At(s, acts, n), acts[n])
    ensures At(s, acts, n + 1) == Apply(At(s, acts, n), acts[n]).0
    decreases n
  {
    PrefixRun(s, acts, n + 1);
    assert acts[..n + 1] == acts[..n] + [acts[n]];
    if n == 0 {
      RunSnoc(s, [], acts[0]);
      assert acts[..0] == [] && [] + [acts[0]] == acts[..1];
    } else {
      var s1 := Apply(s, acts[0]).0;
      AtNext(s1, acts[1..], n - 1);
      assert acts[..n][1..] == acts[1..][..n - 1] && acts[..n + 1][1..] == acts[1..][..n];
    }
  }

  /** A thread at the head of a waiting list has not been unblocked. */
  predicate HeadsFresh(s: State) {
    && (s.receivers != [] ==> s.receivers[0] !in s.wokenReceivers && s.receivers[0] !in s.lostReceivers)
    && (s.senders != [] ==> s.senders[0] !in s.wokenSenders && s.senders[0] !in s.lostSenders)
  }

  lemma AtHeadsFresh(max: nat, acts: seq<Action>, n: nat)
    requires max >= 1 && IsRun(Init(max), acts) && n <= |acts|
    ensures HeadsFresh(At(Init(max), acts, n)) && At(Init(max), acts, n).max == max
  {
    PrefixRun(Init(max), acts, n);
    Reachable(max, acts[..n], AllSenders(acts[..n]) + {0});
    var s := At(Init(max), acts, n);
    assert s.receivers != [] ==> s.receivers[0] in s.receivers;
    assert s.senders != [] ==> s.senders[0] in s.senders;
  }

  // ---------------------------------------------------------------- a lost thread

  lemma LostOnlyBlocks(s: State, a: Action, t: Tid)
    requires Placed(s) && Enabled(s, a) && (t in s.lostSenders || t in s.lostReceivers)
    ensures a.tid == t ==> a.Block?
    ensures t in Apply(s, a).0.lostSenders || t in Apply(s, a).0.lostReceivers
  {
  }

  /** A thread whose unblock was lost takes no step of any continuation but its block: it neither
      resumes nor makes another call. */
  lemma {:induction false} LostForever(s: State, acts: seq<Action>, ts: set<Tid>, t: Tid)
    requires Inv(s, ts) && IsRun(s, acts) && SendersIn(acts, ts)
    requires t in s.lostSenders || t in s.lostReceivers
    ensures forall i :: 0 <= i < |acts| && acts[i].tid == t ==> acts[i].Block?
    decreases |acts|
  {
    if acts != [] {
      var s1, rest := Apply(s, acts[0]).0, acts[1..];
      LostOnlyBlocks(s, acts[0], t);
      StepKeepsInv(s, acts[0], ts);
      assert forall i :: 0 <= i < |rest| ==> rest[i] == acts[i + 1];
      LostForever(s1, rest, ts, t);
      assert forall i :: 0 < i < |acts| ==> acts[i] == rest[i - 1];
    }
  }

  /** The window is real: two receivers and one sender leave a message queued, a receiver parked
      and nobody woken; thread 2 never returns, whatever happens later. */
  lemma LostWakeupExample(max: nat, m: Message, later: seq<Action>)
    requires max >= 1 && IsRun(Exec(Init(max), LostWakeupRun(max, m)), later)
    ensures var s := Exec(Init(max), LostWakeupRun(max, m));
            s.receivers == [1] && |s.queue| == 1 && s.wokenReceivers == {}
    ensures forall i :: 0 <= i < |later| && later[i].tid == 2 ==> later[i].Block?
  {
    var ts := AllSenders(later) + {0};
    assert SendersIn(LostWakeupRun(max, m), ts);
    Reachable(max, LostWakeupRun(max, m), ts);
    LostForever(Exec(Init(max), LostWakeupRun(max, m)), later, ts, 2);
  }

  function LostWakeupRun(max: nat, m: Message): (acts: seq<Action>)
    requires max >= 1
    ensures SendersIn(acts, {0})
    ensures IsRun(Init(max), acts)
    ensures Exec(Init(max), acts)
         == Init(max).(queue := [Stamp(m, 0)], receivers := [1], window := {1, 2}, lostReceivers := {2})
  {
    var acts := [Receive(1, true), Receive(2, true), Send(0, m, true, true)];
    var s1 := Init(max).(receivers := [1], window := {1});
    var s2 := Init(max).(receivers := [2, 1], window := {1, 2});
    var s3 := Init(max).(queue := [Stamp(m, 0)], receivers := [1], window := {1, 2}, lostReceivers := {2});
    assert Apply(Init(max), acts[0]).0 == s1;
    assert Apply(s1, acts[1]).0 == s2;
    assert Apply(s2, acts[2]).0 == s3;
    assert acts[1..] == [acts[1], acts[2]] && acts[1..][1..] == [acts[2]] && acts[1..][1..][1..] == [];
    assert IsRun(s2, [acts[2]]) && Exec(s2, [acts[2]]) == s3;
    assert IsRun(s1, acts[1..]) && Exec(s1, acts[1..]) == s3;
    acts
  }

  // ---------------------------------------------------------------- receivers

  /** A parked receiver means at least as many woken receivers as queued messages. */
  predicate Backed(s: State) {
    s.receivers != [] ==> |s.wokenReceivers| >= |s.queue|
  }

  /** The step accepts a message whose unblock goes to a receiver in its window, while a second
      receiver is parked and every woken receiver already has a message waiting. */
  predicate Starves(s: State, a: Action)
    requires Enabled(s, a)
  {
    && Apply(s, a).1 == Sent && |s.receivers| >= 2 && s.receivers[0] in s.window
    && |s.wokenReceivers| == |s.queue|
  }

  lemma BackedStep(s: State, a: Action)
    requires HeadsFresh(s) && Backed(s) && Enabled(s, a)
    ensures Backed(Apply(s, a).0) <==> !Starves(s, a)
  {
    match a
    case Send(t, m, _, _) => WakeReceiverCounts(s.(queue := s.queue + [Stamp(m, t)]));
    case ResumeSend(t, _) =>
      var s1 := s.(wokenSenders := s.wokenSenders - {t}, pending := s.pending - {t});
      WakeReceiverCounts(s1.(queue := s.queue + [Stamp(s.pending[t], t)]));
    case ResumeReceive(t, _) => assert |s.wokenReceivers - {t}| == |s.wokenReceivers| - 1;
    case _ =>
  }

  ghost predicate AlwaysBacked(s: State, acts: seq<Action>)
    requires IsRun(s, acts)
  {
    forall n: nat :: n <= |acts| ==> Backed(At(s, acts, n))
  }

  ghost predicate NeverStarves(s: State, acts: seq<Action>)
    requires IsRun(s, acts)
  {
    forall n: nat :: n < |acts| ==> Enabled(At(s, acts, n), acts[n]) && !Starves(At(s, acts, n), acts[n])
  }

  /** No receiver wake-up is missed in any state of a run if and only if no step starves. */
  lemma NoLostReceiverWakeup(max: nat, acts: seq<Action>)
    requires max >= 1 && IsRun(Init(max), acts)
    ensures AlwaysBacked(Init(max), acts) <==> NeverStarves(Init(max), acts)
  {
    var s := Init(max);
    if AlwaysBacked(s, acts) {
      forall n: nat | n < |acts|
        ensures Enabled(At(s, acts, n), acts[n]) && !Starves(At(s, acts, n), acts[n])
      {
        AtHeadsFresh(max, acts, n);
        AtNext(s, acts, n);
        BackedStep(At(s, acts, n), acts[n]);
      }
    }
    if NeverStarves(s, acts) {
      forall n: nat | n <= |acts|
        ensures Backed(At(s, acts, n))
      {
        BackedUpTo(max, acts, n);
      }
    }
  }

  lemma {:induction false} BackedUpTo(max: nat, acts: seq<Action>, n: nat)
    requires max >= 1 && IsRun(Init(max), acts) && n <= |acts| && NeverStarves(Init(max), acts)
    ensures Backed(At(Init(max), acts, n))
  {
    if n > 0 {
      BackedUpTo(max, acts, n - 1);
      AtHeadsFresh(max, acts, n - 1);
      AtNext(Init(max), acts, n - 1);
      BackedStep(At(Init(max), acts, n - 1), acts[n - 1]);
    }
  }

  // ---------------------------------------------------------------- senders

  /** A parked sender means a queue that is full once the woken senders are in. */
  predicate Full(s: State) {
    s.senders != [] ==> |s.queue| + |s.wokenSenders| >= s.max
  }

  /** The step frees the last promised slot for nobody: it takes a message and unblocks a sender in
      its window while a second sender is parked, or a woken sender finds no memory while one is
      parked. */
  predicate Drains(s: State, a: Action)
    requires Enabled(s, a)
  {
    && |s.queue| + |s.wokenSenders| == s.max
    && (|| (Apply(s, a).1.Got? && |s.senders| >= 2 && s.senders[0] in s.window)
        || (a.ResumeSend? && !a.nodeAlloc && s.senders != []))
  }

  lemma FullStep(s: State, a: Action)
    requires HeadsFresh(s) && Full(s) && Enabled(s, a)
    ensures Full(Apply(s, a).0) <==> !Drains(s, a)
  {
    match a
    case ResumeSend(t, _) => assert |s.wokenSenders - {t}| == |s.wokenSenders| - 1;
    case ResumeReceive(t, _) =>
      if s.queue != [] {
        WakeSenderCounts(s.(wokenReceivers := s.wokenReceivers - {t}, queue := s.queue[1..]));
      }
    case _ =>
      if s.queue != [] {
        WakeSenderCounts(s.(queue := s.queue[1..]));
      }
  }

  ghost predicate AlwaysFull(s: State, acts: seq<Action>)
    requires IsRun(s, acts)
  {
    forall n: nat :: n <= |acts| ==> Full(At(s, acts, n))
  }

  ghost predicate NeverDrains(s: State, acts: seq<Action>)
    requires IsRun(s, acts)
  {
    forall n: nat :: n < |acts| ==> Enabled(At(s, acts, n), acts[n]) && !Drains(At(s, acts, n), acts[n])
  }

  /** A parked sender means a full queue in every state of a run if and only if no step drains. */
  lemma ParkedSenderMeansFull(max: nat, acts: seq<Action>)
    requires max >= 1 && IsRun(Init(max), acts)
    ensures AlwaysFull(Init(max), acts) <==> NeverDrains(Init(max), acts)
  {
    var s := Init(max);
    if AlwaysFull(s, acts) {
      forall n: nat | n < |acts|
        ensures Enabled(At(s, acts, n), acts[n]) && !Drains(At(s, acts, n), acts[n])
      {
        AtHeadsFresh(max, acts, n);
        AtNext(s, acts, n);
        FullStep(At(s, acts, n), acts[n]);
      }
    }
    if NeverDrains(s, acts) {
      forall n: nat | n <= |acts|
        ensures Full(At(s, acts, n))
      {
        FullUpTo(max, acts, n);
      }
    }
  }

  lemma {:induction false} FullUpTo(max: nat, acts: seq<Action>, n: nat)
    requires max >= 1 && IsRun(Init(max), acts) && n <= |acts| && NeverDrains(Init(max), acts)
    ensures Full(At(Init(max), acts, n))
  {
    if n > 0 {
      FullUpTo(max, acts, n - 1);
      AtHeadsFresh(max, acts, n - 1);
      AtNext(Init(max), acts, n - 1);
      FullStep(At(Init(max), acts, n - 1), acts[n - 1]);
    }
  }

  /** The sender side of the window: on a full port two senders park, a receiver takes a message,
      and a free slot is left beside a parked sender with nobody woken. */
  lemma DrainedExample(max: nat, m: Message) returns (acts: seq<Action>)
    requires max >= 1
    ensures IsRun(Init(max), acts)
    ensures var s := Exec(Init(max), acts);
            s.senders == [1] && |s.queue| == max - 1 && s.wokenSenders == {} && s.lostSenders == {2}
    ensures !AlwaysFull(Init(max), acts)
  {
    var s0 := Init(max);
    acts := FillRun(max, max, m);
    var s1 := Exec(s0, acts);
    RunSnoc(s0, acts, Send(1, m, true, true));
    acts := acts + [Send(1, m, true, true)];
    RunSnoc(s0, acts, Send(2, m, true, true));
    acts := acts + [Send(2, m, true, true)];
    assert Exec(s0, acts).senders == [2, 1];
    RunSnoc(s0, acts, TryReceive(0));
    acts := acts + [TryReceive(0)];
    assert acts[..|acts|] == acts;
    assert !Full(At(s0, acts, |acts|));
  }

  // ---------------------------------------------------------------- both

  /** A race-free run never starves, and drains only when a woken sender finds no memory. */
  lemma {:induction false} RaceFreeAt(s: State, acts: seq<Action>, n: nat)
    requires IsRun(s, acts) && RaceFree(s, acts) && n < |acts|
    ensures Enabled(At(s, acts, n), acts[n]) && !HitsWindow(At(s, acts, n), acts[n])
    decreases n
  {
    AtNext(s, acts, n);
    if n > 0 {
      RaceFreeAt(Apply(s, acts[0]).0, acts[1..], n - 1);
      assert acts[..n][1..] == acts[1..][..n - 1];
    }
  }

  lemma RaceFreeNeverStarves(s: State, acts: seq<Action>)
    requires IsRun(s, acts) && RaceFree(s, acts)
    ensures NeverStarves(s, acts)
    ensures (forall i :: 0 <= i < |acts| && acts[i].ResumeSend? ==> acts[i].nodeAlloc) ==> NeverDrains(s, acts)
  {
    forall n: nat | n < |acts|
      ensures Enabled(At(s, acts, n), acts[n]) && !HitsWindow(At(s, acts, n), acts[n])
    {
      RaceFreeAt(s, acts, n);
    }
  }

  /** Senders and receivers are parked together and nobody has been woken. */
  predicate Stuck(s: State) {
    s.senders != [] && s.receivers != [] && s.wokenSenders == {} && s.wokenReceivers == {}
  }

  /** No deadlock in a run that neither starves nor drains. */
  lemma NoMutualWait(max: nat, acts: seq<Action>, n: nat)
    requires max >= 1 && IsRun(Init(max), acts) && n <= |acts|
    requires NeverStarves(Init(max), acts) && NeverDrains(Init(max), acts)
    ensures !Stuck(At(Init(max), acts, n))
  {
    BackedUpTo(max, acts, n);
    FullUpTo(max, acts, n);
    AtHeadsFresh(max, acts, n);
  }

  /** Without that proviso two receivers, two senders and the window are enough. */
  lemma MutualWaitExample(m: Message) returns (acts: seq<Action>)
    ensures IsRun(Init(1), acts) && Stuck(Exec(Init(1), acts))
  {
    RunSnoc(Init(1), LostWakeupRun(1, m), Send(3, m, true, true));
    acts := LostWakeupRun(1, m) + [Send(3, m, true, true)];
  }
}
