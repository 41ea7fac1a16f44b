/**
 * mqnic_start_xmit and mqnic_process_tx_cq over one driver ring. Each shared access
 * performs one step of TxProtocol; the two routines are also given as wholes.
 */
module TxQueue {
  import opened Numbers
  import opened Wrappers
  import opened Modular
  import R = DescriptorRing
  import D = DriverRing
  import P = TxProtocol

  type Buffer = R.Buffer

  /** What becomes of a packet handed to start_xmit. */
  datatype Fate = Rejected | MapFails | Sent

  class Queue {
    const dev: D.Ring
    const fullSize: nat
    var queueStopped: bool
    ghost var g: P.State

    ghost predicate Valid()
      reads this, dev, dev.info, dev.cqBuf
    {
      && dev.Valid() && dev.g == g.ring
      && dev.size <= U16 && fullSize == dev.size / 2
      && queueStopped == g.stopped
      && P.Inv(g)
    }

    /** mqnic_alloc_tx_ring and mqnic_activate_tx_ring, with a completion queue of equal size. */
    constructor (entries: nat)
      requires 0 < entries <= U16
      ensures Valid() && fresh(dev) && fresh(dev.info) && fresh(dev.cqBuf)
      ensures g == P.Initial(RoundUpPowerOfTwo(entries))
    {
      RoundUpIsRingSize(entries);
      dev := new D.Ring(entries, false);
      fullSize := RoundUpPowerOfTwo(entries) / 2;
      queueStopped := false;
      g := P.Initial(RoundUpPowerOfTwo(entries));
      new;
      P.InitialInv(RoundUpPowerOfTwo(entries));
    }

    /** mqnic_is_tx_ring_full */
    method IsFull() returns (full: bool)
      requires Valid()
      ensures full == P.Full(g)
    {
      var occupied := dev.Occupied();
      full := occupied >= fullSize;
    }

    /** The abstract counterpart of a change just made to the ring or the stop flag. */
    ghost method Follow(e: P.Event)
      requires P.Inv(g) && P.Enabled(g, e)
      requires dev.Valid() && dev.g == P.Step(g, e).ring
      requires dev.size == g.ring.size && dev.size <= U16 && fullSize == dev.size / 2
      requires queueStopped == P.Step(g, e).stopped
      modifies this`g
      ensures Valid() && g == P.Step(old(g), e)
    {
      P.StepKeeps(g, e);
      g := P.Step(g, e);
    }

    // Steps of mqnic_start_xmit

    method Reject(buffer: Buffer)
      requires Valid() && g.xmit.Idle? && !queueStopped
      modifies this
      ensures Valid() && g == P.Step(old(g), P.Drop(buffer))
    {
      Follow(P.Drop(buffer));
    }

    method MapSkb(buffer: Buffer)
      requires Valid() && g.xmit.Idle? && !queueStopped
      modifies this, dev, dev.info
      ensures Valid() && P.Enabled(old(g), P.Map(buffer)) && g == P.Step(old(g), P.Map(buffer))
    {
      dev.Fill(buffer);
      Follow(P.Map(buffer));
    }

    method UnmapSkb()
      requires Valid() && g.xmit.Mapped?
      modifies this, dev, dev.info
      ensures Valid() && P.Enabled(old(g), P.MapFailed) && g == P.Step(old(g), P.MapFailed)
    {
      dev.Unfill();
      Follow(P.MapFailed);
    }

    method AdvanceHead()
      requires Valid() && g.xmit.Mapped?
      modifies this, dev
      ensures Valid() && P.Enabled(old(g), P.Push) && g == P.Step(old(g), P.Push)
    {
      dev.AdvanceHead();
      Follow(P.Push);
    }

    method TestFull() returns (stop: bool)
      requires Valid() && g.xmit.Posted?
      modifies this
      ensures Valid() && g == P.Step(old(g), P.TestFull) && stop == P.Full(old(g))
    {
      stop := IsFull();
      Follow(P.TestFull);
    }

    method StopQueue()
      requires Valid() && g.xmit.Stopping?
      modifies this
      ensures Valid() && g == P.Step(old(g), P.Stop)
    {
      queueStopped := true;
      Follow(P.Stop);
    }

    method RingDoorbell(more: bool, stop: bool)
      requires Valid() && g.xmit == P.Ringing(stop)
      modifies this, dev
      ensures Valid() && P.Enabled(old(g), P.Doorbell(more)) && g == P.Step(old(g), P.Doorbell(more))
    {
      if !more || stop {
        dev.WriteHeadPtr();
      }
      Follow(P.Doorbell(more));
    }

    method RecheckFull() returns (room: bool)
      requires Valid() && g.xmit.Rechecking?
      modifies this
      ensures Valid() && g == P.Step(old(g), P.Recheck) && room == !P.Full(old(g))
    {
      var full := IsFull();
      room := !full;
      Follow(P.Recheck);
    }

    method WakeFromXmit()
      requires Valid() && g.xmit.Waking?
      modifies this
      ensures Valid() && g == P.Step(old(g), P.XmitWake)
    {
      queueStopped := false;
      Follow(P.XmitWake);
    }

    // Steps of the NIC

    method NicConsume()
      requires Valid() && g.ring.nicTail < g.ring.bell
      modifies this, dev
      ensures Valid() && P.Enabled(old(g), P.Nic(R.Consume)) && g == P.Step(old(g), P.Nic(R.Consume))
    {
      dev.Consume();
      Follow(P.Nic(R.Consume));
    }

    method NicComplete(descriptor: nat)
      requires Valid() && descriptor < g.ring.nicTail && descriptor !in g.ring.completed
      modifies this, dev, dev.cqBuf
      ensures Valid() && P.Enabled(old(g), P.Nic(R.Complete(descriptor)))
      ensures g == P.Step(old(g), P.Nic(R.Complete(descriptor)))
    {
      dev.Complete(descriptor);
      Follow(P.Nic(R.Complete(descriptor)));
    }

    // Steps of mqnic_process_tx_cq

    method ReadCqHead(budget: nat)
      requires Valid() && g.ring.poll.Idle?
      modifies this, dev
      ensures Valid() && P.Enabled(old(g), P.Poll(R.PollStart(budget)))
      ensures g == P.Step(old(g), P.Poll(R.PollStart(budget)))
    {
      dev.ReadCqHead(budget);
      Follow(P.Poll(R.PollStart(budget)));
    }

    /** mqnic_free_tx_desc for one completion: the packet consumed is the one posted. */
    method FreeDescriptor() returns (freed: Option<Buffer>)
      requires Valid() && P.Enabled(g, P.Poll(R.PollHandle))
      modifies this, dev, dev.info
      ensures Valid() && g == P.Step(old(g), P.Poll(R.PollHandle))
      ensures freed == Some(old(g.ring.posted[g.ring.completed[g.ring.cqRead]]))
    {
      freed := dev.TakeCompleted();
      Follow(P.Poll(R.PollHandle));
    }

    method PublishCqTail()
      requires Valid() && g.ring.poll.Reading? && (g.ring.cqHead == g.ring.cqRead || g.ring.poll.left == 0)
      modifies this, dev
      ensures Valid() && P.Enabled(old(g), P.Poll(R.PollPublish)) && g == P.Step(old(g), P.Poll(R.PollPublish))
    {
      dev.PublishCqTail();
      Follow(P.Poll(R.PollPublish));
    }

    method ReadTail()
      requires Valid() && g.ring.poll.Published?
      modifies this, dev
      ensures Valid() && P.Enabled(old(g), P.Poll(R.PollReadTail)) && g == P.Step(old(g), P.Poll(R.PollReadTail))
    {
      dev.ReadTail();
      Follow(P.Poll(R.PollReadTail));
    }

    /** One turn of the clean scan; it reports whether the scan goes on. */
    method Scan() returns (advanced: bool)
      requires Valid() && g.ring.poll.Scanning?
      modifies this, dev
      ensures Valid()
      ensures P.Enabled(old(g), P.Poll(if advanced then R.PollScan else R.PollClean))
      ensures g == P.Step(old(g), P.Poll(if advanced then R.PollScan else R.PollClean))
    {
      advanced := dev.ScanContinues();
      if advanced {
        dev.ScanOne();
        Follow(P.Poll(R.PollScan));
      } else {
        dev.PublishClean();
        Follow(P.Poll(R.PollClean));
      }
    }

    method TestStopped() returns (stopped: bool)
      requires Valid() && g.ring.poll.Cleaned? && g.wake.Untested?
      modifies this, dev`g
      ensures Valid() && g == P.Step(old(g), P.TestStopped) && stopped == old(g).stopped
    {
      stopped := queueStopped;
      if !stopped {
        dev.EndPoll();
      }
      Follow(P.TestStopped);
    }

    method TestRoom() returns (room: bool)
      requires Valid() && g.ring.poll.Cleaned? && g.wake.SawStopped?
      modifies this, dev`g
      ensures Valid() && g == P.Step(old(g), P.TestRoom) && room == !P.Full(old(g))
    {
      var full := IsFull();
      room := !full;
      if full {
        dev.EndPoll();
      }
      Follow(P.TestRoom);
    }

    method WakeFromPoll()
      requires Valid() && g.ring.poll.Cleaned? && g.wake.Waking?
      modifies this, dev`g
      ensures Valid() && g == P.Step(old(g), P.PollWake)
    {
      queueStopped := false;
      dev.EndPoll();
      Follow(P.PollWake);
    }

    // All of it interleaved

    /** One step of whoever's turn it is; stop is the local variable of start_xmit. */
    method Perform(e: P.Event, stop: bool) returns (stopNext: bool)
      requires Valid() && P.Enabled(g, e) && (g.xmit.Ringing? ==> g.xmit.stop == stop)
      modifies this, dev, dev.info, dev.cqBuf
      ensures Valid() && g == P.Step(old(g), e) && (g.xmit.Ringing? ==> g.xmit.stop == stopNext)
    {
      hide P.Inv, D.Ring.Valid, P.Full;
      stopNext := stop;
      match e {
        case Drop(b) => Reject(b);
        case Map(b) => MapSkb(b);
        case MapFailed => UnmapSkb();
        case Push => AdvanceHead();
        case TestFull => stopNext := TestFull();
        case Stop =>
          StopQueue();
          stopNext := true;
        case Doorbell(more) => RingDoorbell(more, stop);
        case Recheck => var room := RecheckFull();
        case XmitWake => WakeFromXmit();
        case Nic(n) => NicTurn(n);
        case Poll(p) => PollTurn(p);
        case TestStopped => var stopped := TestStopped();
        case TestRoom => var room := TestRoom();
        case PollWake => WakeFromPoll();
      }
    }

    method NicTurn(n: R.Event)
      requires Valid() && P.Enabled(g, P.Nic(n))
      modifies this, dev, dev.cqBuf
      ensures Valid() && g == P.Step(old(g), P.Nic(n))
    {
      hide P.Inv, D.Ring.Valid;
      if n.Consume? {
        NicConsume();
      } else {
        NicComplete(n.descriptor);
      }
    }

    method PollTurn(p: R.Event)
      requires Valid() && P.Enabled(g, P.Poll(p))
      modifies this, dev, dev.info
      ensures Valid() && g == P.Step(old(g), P.Poll(p))
    {
      hide P.Inv, D.Ring.Valid, R.Slot;
      match p {
        case PollStart(budget) => ReadCqHead(budget);
        case PollHandle => var freed := FreeDescriptor();
        case PollPublish => PublishCqTail();
        case PollReadTail => ReadTail();
        case PollScan => var advanced := Scan();
        case PollClean => var advanced := Scan();
      }
    }

    /**
     * start_xmit, the handler and the NIC taking turns step by step in any legal order: the
     * pointers and registers go through the states of the protocol's run.
     */
    method Play(events: seq<P.Event>)
      requires Valid() && !g.xmit.Ringing? && P.Legal(g, events)
      modifies this, dev, dev.info, dev.cqBuf
      ensures Valid() && g == P.Run(old(g), events)
    {
      hide *;
      ghost var s := g;
      var stop := false;
      var n := 0;
      P.RunNone(s, events);
      while n < |events|
        invariant n <= |events| && Valid() && g == P.Run(s, events[..n])
        invariant g.xmit.Ringing? ==> g.xmit.stop == stop
      {
        P.LegalPrefix(s, events, n);
        stop := Perform(events[n], stop);
        n := n + 1;
      }
      assert events[..n] == events;
    }

    // The two routines, each run without interruption

    /** mqnic_start_xmit */
    method StartXmit(buffer: Buffer, fate: Fate, more: bool)
      requires Valid() && g.xmit.Idle? && !queueStopped
      modifies this, dev, dev.info
      ensures Valid() && g.xmit.Idle?
      ensures fate != Sent ==> g == old(g).(dropped := old(g.dropped) + [buffer])
      ensures fate == Sent ==>
        g == old(g).(stopped := P.Full(g),
                     ring := old(g.ring).(
                       slots := old(g.ring.slots)[R.Slot(old(g.ring.Head()), dev.size) := Some(buffer)],
                       posted := old(g.ring.posted) + [buffer],
                       bell := if !more || P.Full(g) then g.ring.Head() else old(g.ring.bell)))
    {
      if fate == Rejected {
        Reject(buffer);
      } else {
        var accepted := Enqueue(buffer, fate == Sent);
        if accepted {
          Announce(more);
        }
      }
    }

    /** Fill the slot at head and advance head, or undo the mapping and drop the packet. */
    method Enqueue(buffer: Buffer, mappable: bool) returns (accepted: bool)
      requires Valid() && g.xmit.Idle? && !queueStopped
      modifies this, dev, dev.info
      ensures Valid() && accepted == mappable
      ensures mappable ==>
        g == old(g).(ring := old(g.ring).(
                       slots := old(g.ring.slots)[R.Slot(old(g.ring.Head()), dev.size) := Some(buffer)],
                       posted := old(g.ring.posted) + [buffer]),
                     xmit := P.Posted)
      ensures !mappable ==> g == old(g).(dropped := old(g.dropped) + [buffer])
    {
      R.NoOverwrite(g.ring);
      MapSkb(buffer);
      if !mappable {
        UnmapSkb();
        assert g.ring.slots == old(g.ring.slots);
      } else {
        AdvanceHead();
      }
      accepted := mappable;
    }

    /**
     * Stop the queue if the ring is full, ring the doorbell, and test again after a stop.
     * Only a handler step in between could have made room, and here there is none.
     */
    method Announce(more: bool)
      requires Valid() && g.xmit.Posted? && !queueStopped
      modifies this, dev
      ensures Valid()
      ensures g == old(g).(ring := old(g.ring).(bell := g.ring.bell), stopped := P.Full(g), xmit := P.Xmit.Idle)
      ensures g.ring.bell == if !more || P.Full(g) then g.ring.Head() else old(g.ring.bell)
    {
      var stop := TestFull();
      if stop {
        StopQueue();
      }
      RingDoorbell(more, stop);
      if stop {
        var room := RecheckFull();
        if room {
          assert false;
        }
      }
    }

    /**
     * mqnic_process_tx_cq. It handles as many completions as its budget allows, reclaims
     * every leading descriptor whose packet is gone, and wakes a stopped queue that now
     * has room. When the NIC is done with everything posted and the budget suffices, it
     * leaves the ring empty and the queue running.
     */
    method ProcessTxCq(budget: nat) returns (done: nat)
      requires Valid() && g.ring.poll.Idle?
      modifies this, dev, dev.info
      ensures Valid() && g.ring.poll.Idle?
      ensures done == Min(budget, |g.ring.completed| - old(g.ring.cqTail))
      ensures g.ring.cqTail == old(g.ring.cqTail) + done
      ensures HandlerOnly(old(g))
      ensures g.ring.clean == g.ring.nicTail || g.ring.slots[R.Slot(g.ring.clean, dev.size)].Some?
      ensures queueStopped == (old(queueStopped) && P.Full(g))
      ensures old(|g.ring.completed| == g.ring.Head() && budget >= |g.ring.completed| - g.ring.cqTail) ==>
                g.ring.Occupancy() == 0 && (fullSize > 0 ==> !queueStopped)
    {
      done := HandleCompletions(budget);
      ReclaimSlots();
      WakeIfRoom();
    }

    /** Packets posted, what the NIC did with them, and start_xmit's own state are unchanged. */
    ghost predicate HandlerOnly(before: P.State)
      reads this
    {
      && g.ring.posted == before.ring.posted && g.ring.completed == before.ring.completed
      && g.ring.nicTail == before.ring.nicTail && g.ring.bell == before.ring.bell
      && g.ring.mapped == before.ring.mapped && g.ring.size == before.ring.size
      && g.xmit == before.xmit && g.dropped == before.dropped
    }

    method HandleCompletions(budget: nat) returns (done: nat)
      requires Valid() && g.ring.poll.Idle?
      modifies this, dev, dev.info
      ensures Valid() && g.ring.poll.Published? && HandlerOnly(old(g)) && g.stopped == old(g.stopped)
      ensures done == Min(budget, |g.ring.completed| - old(g.ring.cqTail))
      ensures g.ring.cqTail == old(g.ring.cqTail) + done
    {
      var more := BeginPoll(budget);
      done := 0;
      while more && done < budget
        invariant InLoop(budget - done, more) && HandlerOnly(old(g)) && g.stopped == old(g.stopped)
        invariant done <= budget
        invariant g.ring.cqRead == old(g.ring.cqTail) + done
        decreases budget - done
      {
        more := HandleNext(budget - done);
        done := done + 1;
      }
      EndCompletions();
    }

    /** The handler is in its completion loop, knows every completion, and has this much budget left. */
    ghost predicate InLoop(left: int, more: bool)
      reads this, dev, dev.info, dev.cqBuf
    {
      && Valid() && g.ring.poll.Reading? && g.ring.poll.left == left
      && g.ring.cqRead <= g.ring.cqHead == |g.ring.completed|
      && more == (g.ring.cqRead < |g.ring.completed|)
    }

    method BeginPoll(budget: nat) returns (more: bool)
      requires Valid() && g.ring.poll.Idle?
      modifies this, dev
      ensures InLoop(budget, more) && HandlerOnly(old(g)) && g.stopped == old(g.stopped)
      ensures g.ring.cqRead == old(g.ring.cqTail)
    {
      ReadCqHead(budget);
      more := dev.MoreCompletions();
    }

    method HandleNext(ghost left: nat) returns (more: bool)
      requires InLoop(left, true) && left > 0
      modifies this, dev, dev.info
      ensures InLoop(left - 1, more) && HandlerOnly(old(g)) && g.stopped == old(g.stopped)
      ensures g.ring.cqRead == old(g.ring.cqRead) + 1
    {
      var freed := FreeDescriptor();
      more := dev.MoreCompletions();
    }

    method EndCompletions()
      requires Valid() && g.ring.poll.Reading? && (g.ring.cqHead == g.ring.cqRead || g.ring.poll.left == 0)
      modifies this, dev
      ensures Valid() && g.ring.poll.Published? && HandlerOnly(old(g)) && g.stopped == old(g.stopped)
      ensures g.ring.cqTail == old(g.ring.cqRead)
    {
      PublishCqTail();
    }

    method ReclaimSlots()
      requires Valid() && g.ring.poll.Published?
      modifies this, dev
      ensures Valid() && g.ring.poll.Cleaned?
      ensures g == old(g).(ring := old(g.ring).(tail := g.ring.nicTail, clean := g.ring.clean, poll := R.Cleaned))
      ensures g.ring.clean == g.ring.nicTail || g.ring.slots[R.Slot(g.ring.clean, dev.size)].Some?
      ensures |g.ring.completed| == g.ring.cqTail == g.ring.Head() ==> g.ring.Occupancy() == 0
    {
      dev.ReclaimSlots();
      P.ReclaimKeeps(g, dev.g);
      g := g.(ring := dev.g);
    }

    method WakeIfRoom()
      requires Valid() && g.ring.poll.Cleaned? && g.wake.Untested?
      modifies this, dev`g
      ensures Valid()
      ensures g == old(g).(ring := old(g.ring).(poll := R.Idle), stopped := old(g.stopped) && P.Full(g))
    {
      var stopped := TestStopped();
      if stopped {
        var room := TestRoom();
        if room {
          WakeFromPoll();
        }
      }
    }
  }
}
