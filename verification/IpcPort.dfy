/** The port object of kernel/ipc/ipc.c: a linked message queue with head, tail and size, and the
    two waiting lists.  Every method is one critical section under the port lock and is proved to
    take exactly the corresponding step of IpcModel. */
module IpcPort {
  import opened IpcModel

  const MAX_QUEUE_SIZE := 32

  class MessageNode {
    var message: Message
    var next: MessageNode?

    constructor (m: Message)
      ensures message == m && next == null
    {
      message, next := m, null;
    }
  }

  class Port {
    var queueHead: MessageNode?
    var queueTail: MessageNode?
    var queueSize: nat
    var queueMax: nat
    var waitingReceivers: seq<Tid>
    var waitingSenders: seq<Tid>

    ghost var nodes: seq<MessageNode>  // the linked list, head first
    ghost var model: State             // the abstract port, with the threads' side of the protocol

    /** head, tail and the next pointers spell out `nodes`, and size is its length. */
    ghost predicate Linked()
      reads this, nodes
    {
      && queueSize == |nodes|
      && queueHead == (if nodes == [] then null else nodes[0])
      && queueTail == (if nodes == [] then null else nodes[|nodes| - 1])
      && (forall i {:trigger nodes[i].next} :: 0 <= i < |nodes| - 1 ==> nodes[i].next == nodes[i + 1])
      && (nodes != [] ==> nodes[|nodes| - 1].next == null)
      && (forall i, j :: 0 <= i < j < |nodes| ==> nodes[i] != nodes[j])
    }

    ghost predicate Valid()
      reads this, nodes
    {
      && Linked()
      && |model.queue| == |nodes|
      && (forall i :: 0 <= i < |nodes| ==> nodes[i].message == model.queue[i])
      && model.max == queueMax && model.senders == waitingSenders && model.receivers == waitingReceivers
    }

    constructor ()
      ensures Valid() && nodes == [] && model == Init(MAX_QUEUE_SIZE)
    {
      queueHead, queueTail, queueSize, queueMax := null, null, 0, MAX_QUEUE_SIZE;
      waitingReceivers, waitingSenders := [], [];
      nodes, model := [], Init(MAX_QUEUE_SIZE);
    }

    /** Copy the message into a node, link it at the tail, unblock the first waiting receiver. */
    method Append(t: Tid, m: Message)
      requires Valid()
      modifies this, nodes
      ensures Valid() && model == Enqueue(old(model), t, m)
      ensures |nodes| == |old(nodes)| + 1 && nodes[..|old(nodes)|] == old(nodes) && fresh(nodes[|old(nodes)|])
      ensures SentBy(nodes[|old(nodes)|].message, Submission(t, m))
    {
      var node := new MessageNode(Stamp(m, t));
      if queueTail != null {
        queueTail.next := node;
        queueTail := node;
      } else {
        queueHead := node;
        queueTail := node;
      }
      queueSize := queueSize + 1;
      nodes := nodes + [node];
      model := model.(queue := model.queue + [Stamp(m, t)]);
      if waitingReceivers != [] {
        waitingReceivers := waitingReceivers[1..];
        model := WakeReceiver(model);
      }
    }

    /** Unlink the head, return its message, unblock the first waiting sender. */
    method TakeHead() returns (m: Message)
      requires Valid() && queueSize > 0
      modifies this
      ensures Valid() && model == Dequeue(old(model)) && m == old(model).queue[0]
      ensures nodes == old(nodes)[1..]
    {
      var node := queueHead;
      queueHead := node.next;
      if queueHead == null {
        queueTail := null;
      }
      queueSize := queueSize - 1;
      m := node.message;
      nodes := nodes[1..];
      model := model.(queue := model.queue[1..]);
      if waitingSenders != [] {
        waitingSenders := waitingSenders[1..];
        model := WakeSender(model);
      }
    }

    /** ipc_send from the first lock to the enqueue, or to the release before thread_block. */
    method Send(t: Tid, m: Message, waitAlloc: bool, nodeAlloc: bool) returns (out: Outcome)
      requires Valid() && Enabled(model, Action.Send(t, m, waitAlloc, nodeAlloc))
      modifies this, nodes
      ensures Valid() && (model, out) == Apply(old(model), Action.Send(t, m, waitAlloc, nodeAlloc))
      ensures forall n :: n in nodes ==> n in old(nodes) || fresh(n)
    {
      if queueSize >= queueMax {
        if !waitAlloc {
          return Failed;
        }
        waitingSenders := [t] + waitingSenders;
        model := model.(senders := [t] + model.senders, window := model.window + {t}, pending := model.pending[t := m]);
        return Parked;
      }
      if !nodeAlloc {
        return Failed;
      }
      Append(t, m);
      out := Sent;
    }

    /** ipc_send after thread_block returns: straight to the enqueue. */
    method ResumeSend(t: Tid, m: Message, nodeAlloc: bool) returns (out: Outcome)
      requires Valid() && Enabled(model, Action.ResumeSend(t, nodeAlloc)) && m == model.pending[t]
      modifies this, nodes
      ensures Valid() && (model, out) == Apply(old(model), Action.ResumeSend(t, nodeAlloc))
      ensures forall n :: n in nodes ==> n in old(nodes) || fresh(n)
    {
      model := model.(wokenSenders := model.wokenSenders - {t}, pending := model.pending - {t});
      if !nodeAlloc {
        model := model.(failedResumes := model.failedResumes + 1);
        return Failed;
      }
      Append(t, m);
      out := Sent;
    }

    /** One pass of the loop in ipc_receive: park when the queue is empty, else dequeue. */
    method ReceivePass(t: Tid, waitAlloc: bool) returns (out: Outcome)
      requires Valid()
      modifies this
      ensures Valid()
      ensures (model, out) == if old(model).queue == [] then ParkReceiver(old(model), t, waitAlloc)
                              else (Dequeue(old(model)), Got(old(model).queue[0]))
      ensures nodes == old(nodes) || (old(nodes) != [] && nodes == old(nodes)[1..])
    {
      if queueSize == 0 {
        if !waitAlloc {
          return Failed;
        }
        waitingReceivers := [t] + waitingReceivers;
        model := model.(receivers := [t] + model.receivers, window := model.window + {t});
        return Parked;
      }
      var m := TakeHead();
      out := Got(m);
    }

    /** ipc_receive up to its first release of the lock. */
    method Receive(t: Tid, waitAlloc: bool) returns (out: Outcome)
      requires Valid() && Enabled(model, Action.Receive(t, waitAlloc))
      modifies this
      ensures Valid() && (model, out) == Apply(old(model), Action.Receive(t, waitAlloc))
    {
      out := ReceivePass(t, waitAlloc);
    }

    /** ipc_receive after thread_block returns: the loop condition is checked again. */
    method ResumeReceive(t: Tid, waitAlloc: bool) returns (out: Outcome)
      requires Valid() && Enabled(model, Action.ResumeReceive(t, waitAlloc))
      modifies this
      ensures Valid() && (model, out) == Apply(old(model), Action.ResumeReceive(t, waitAlloc))
    {
      model := model.(wokenReceivers := model.wokenReceivers - {t});
      out := ReceivePass(t, waitAlloc);
    }

    method TryReceive(t: Tid) returns (out: Outcome)
      requires Valid() && Enabled(model, Action.TryReceive(t))
      modifies this
      ensures Valid() && (model, out) == Apply(old(model), Action.TryReceive(t))
    {
      if queueSize == 0 {
        return Failed;
      }
      var m := TakeHead();
      out := Got(m);
    }
  }
}
