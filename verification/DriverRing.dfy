/**
 * A descriptor ring and its completion queue as the driver and the NIC hold them: 32-bit
 * free-running pointers in memory, 16-bit pointers in the device registers, buffers and
 * completion entries in arrays. Every shared access is one method, and each performs
 * one step of DescriptorRing on the unbounded counters of the ghost field g.
 */
module DriverRing {
  import opened Wrappers
  import opened Modular
  import R = DescriptorRing

  type Buffer = R.Buffer

  class Ring {
    ghost var g: R.Ring

    const size: nat
    // Driver side of the ring
    var headPtr: U32Value
    var tailPtr: U32Value
    var cleanTailPtr: U32Value
    const info: array<Option<Buffer>>
    // Device registers of the ring
    var hwHeadPtr: U16Value
    var hwTailPtr: U16Value
    // Completion queue: driver side, entries and device registers
    var cqHeadPtr: U32Value
    var cqTailPtr: U32Value
    const cqBuf: array<U16Value>
    var cqHwHeadPtr: U16Value
    var cqHwTailPtr: U16Value
    // Locals of the NAPI handler that live across shared accesses
    var pollCqTail: U32Value
    var pollClean: U32Value

    /**
     * The finite pointers stand for the unbounded counters, and fewer than 2^16
     * descriptors are outstanding: as many as a 16-bit register can tell apart.
     */
    ghost predicate Valid()
      reads this, info, cqBuf
    {
      && R.Inv(g) && g.size == size && RingSize(size) && g.Occupancy() < U16
      && DescriptorSide()
      && CompletionSide()
    }

    ghost predicate DescriptorSide()
      reads this, info
    {
      && headPtr == g.Head() % U32
      && tailPtr == g.tail % U32
      && cleanTailPtr == g.clean % U32
      && info[..] == g.slots
      && hwHeadPtr == g.bell % U16
      && hwTailPtr == g.nicTail % U16
      && (g.poll.Scanning? ==> pollClean == g.poll.at % U32)
    }

    ghost predicate CompletionSide()
      reads this, cqBuf
    {
      && cqHeadPtr == g.cqHead % U32
      && cqTailPtr == g.cqTail % U32
      && cqHwHeadPtr == |g.completed| % U16
      && cqHwTailPtr == g.cqTail % U16
      && (g.poll.Reading? ==> pollCqTail == g.cqRead % U32)
      && cqBuf.Length == size > 0
      && forall k: nat :: g.cqRead <= k < |g.completed| ==> cqBuf[R.Slot(k, size)] == g.completed[k] % U16
    }

    /**
     * A ring and a completion queue of the same rounded-up size, all pointers equal and all
     * slots empty. Activation fills a receive ring first, from where a reclaim would end.
     */
    constructor (entries: nat, ghost filling: bool)
      requires 0 < entries <= U16
      ensures Valid()
      ensures g == R.Empty(RoundUpPowerOfTwo(entries)).(poll := if filling then R.Cleaned else R.Idle)
      ensures fresh(info) && fresh(cqBuf)
    {
      RoundUpIsRingSize(entries);
      var n := RoundUpPowerOfTwo(entries);
      size := n;
      headPtr, tailPtr, cleanTailPtr := 0, 0, 0;
      info := new Option<Buffer>[n](_ => None);
      cqBuf := new U16Value[n](_ => 0);
      hwHeadPtr, hwTailPtr := 0, 0;
      cqHeadPtr, cqTailPtr, cqHwHeadPtr, cqHwTailPtr := 0, 0, 0, 0;
      pollCqTail, pollClean := 0, 0;
      g := R.Empty(n).(poll := if filling then R.Cleaned else R.Idle);
      new;
      R.EmptyInv(n);
      assert info[..] == g.slots;
    }

    // The producer

    /** The 32-bit difference of the pointers is the true occupancy. */
    method Occupied() returns (n: nat)
      requires Valid()
      ensures n == g.Occupancy()
    {
      Distance32(g.Head(), g.clean);
      n := (headPtr - cleanTailPtr) % U32;
    }

    /** The slot at head, as the driver finds it. */
    method SlotAtHead() returns (b: Option<Buffer>)
      requires Valid()
      ensures b == g.slots[R.Slot(g.Head(), size)]
    {
      SlotOfTruncated(g.Head(), size);
      b := info[headPtr % size];
    }

    method Fill(buffer: Buffer)
      requires Valid() && R.Enabled(g, R.Map(buffer))
      modifies this, info
      ensures Valid() && g == R.Step(old(g), R.Map(buffer))
    {
      R.StepKeeps(g, R.Map(buffer));
      SlotOfTruncated(g.Head(), size);
      info[headPtr % size] := Some(buffer);
      g := R.Step(g, R.Map(buffer));
    }

    method Unfill()
      requires Valid() && R.Enabled(g, R.Unmap)
      modifies this, info
      ensures Valid() && g == R.Step(old(g), R.Unmap)
    {
      R.StepKeeps(g, R.Unmap);
      SlotOfTruncated(g.Head(), size);
      info[headPtr % size] := None;
      g := R.Step(g, R.Unmap);
    }

    method AdvanceHead()
      requires Valid() && R.Enabled(g, R.Push) && g.Occupancy() + 1 < U16
      modifies this
      ensures Valid() && g == R.Step(old(g), R.Push)
    {
      R.StepKeeps(g, R.Push);
      Increment(g.Head());
      headPtr := (headPtr + 1) % U32;
      g := R.Step(g, R.Push);
    }

    method WriteHeadPtr()
      requires Valid()
      modifies this
      ensures Valid() && R.Enabled(old(g), R.Doorbell) && g == R.Step(old(g), R.Doorbell)
    {
      R.StepKeeps(g, R.Doorbell);
      TruncateTwice(g.Head());
      hwHeadPtr := headPtr % U16;
      g := R.Step(g, R.Doorbell);
    }

    // The NIC

    /** The registers differ exactly while posted descriptors remain to be consumed. */
    method HasWork() returns (work: bool)
      requires Valid()
      ensures work == (g.nicTail < g.bell)
    {
      Equal16(g.bell, g.nicTail);
      work := hwTailPtr != hwHeadPtr;
    }

    method Consume()
      requires Valid() && R.Enabled(g, R.Consume)
      modifies this
      ensures Valid() && g == R.Step(old(g), R.Consume)
    {
      R.StepKeeps(g, R.Consume);
      Increment(g.nicTail);
      hwTailPtr := (hwTailPtr + 1) % U16;
      g := R.Step(g, R.Consume);
    }

    /** The NIC writes a completion entry without asking whether there is room for it. */
    method Complete(descriptor: nat)
      requires Valid() && R.Enabled(g, R.Complete(descriptor))
      modifies this, cqBuf
      ensures Valid() && g == R.Step(old(g), R.Complete(descriptor))
    {
      var n := |g.completed|;
      R.StepKeeps(g, R.Complete(descriptor));
      R.CompletionEntryFree(g, descriptor);
      SlotOfTruncated(n, size);
      cqBuf[cqHwHeadPtr % size] := descriptor % U16;
      Increment(n);
      cqHwHeadPtr := (cqHwHeadPtr + 1) % U16;
      g := R.Step(g, R.Complete(descriptor));
    }

    // The NAPI handler

    /** mqnic_cq_read_head_ptr: the 32-bit head is recovered from its 16-bit register. */
    method ReadCqHead(budget: nat)
      requires Valid() && g.poll.Idle?
      modifies this
      ensures Valid() && R.Enabled(old(g), R.PollStart(budget)) && g == R.Step(old(g), R.PollStart(budget))
    {
      R.StepKeeps(g, R.PollStart(budget));
      R.CompletionQueueFits(g);
      RecoverExact(g.cqHead, |g.completed|);
      cqHeadPtr := Recover(cqHeadPtr, cqHwHeadPtr);
      pollCqTail := cqTailPtr;
      g := R.Step(g, R.PollStart(budget));
    }

    /** The test of the completion loop: the pointers differ exactly while entries remain. */
    method MoreCompletions() returns (more: bool)
      requires Valid() && g.poll.Reading?
      ensures more == (g.cqRead < g.cqHead)
    {
      R.CompletionQueueFits(g);
      Equal32(g.cqHead, g.cqRead);
      more := cqHeadPtr != pollCqTail;
    }

    /** The slot named by the completion entry under the handler. */
    method CompletedSlot() returns (index: nat)
      requires Valid() && g.poll.Reading? && g.cqRead < |g.completed|
      ensures index < size && index == R.Slot(g.completed[g.cqRead], size)
      ensures g.slots[index] == Some(g.posted[g.completed[g.cqRead]])
    {
      SlotOfTruncated(g.cqRead, size);
      SlotOfTruncated(g.completed[g.cqRead], size);
      R.UnhandledIsHeld(g, g.cqRead);
      index := cqBuf[pollCqTail % size] % size;
    }

    /** Take the buffer of one completion out of its slot: it is the buffer posted there. */
    method TakeCompleted() returns (buffer: Option<Buffer>)
      requires Valid() && R.Enabled(g, R.PollHandle)
      modifies this, info
      ensures Valid() && g == R.Step(old(g), R.PollHandle)
      ensures buffer == Some(old(g.posted[g.completed[g.cqRead]]))
    {
      var index := CompletedSlot();
      R.StepKeeps(g, R.PollHandle);
      Increment(g.cqRead);
      buffer := info[index];
      info[index] := None;
      pollCqTail := (pollCqTail + 1) % U32;
      g := R.Step(g, R.PollHandle);
    }

    /** mqnic_cq_write_tail_ptr */
    method PublishCqTail()
      requires Valid() && g.poll.Reading?
      modifies this
      ensures Valid() && R.Enabled(old(g), R.PollPublish) && g == R.Step(old(g), R.PollPublish)
    {
      R.StepKeeps(g, R.PollPublish);
      TruncateTwice(g.cqRead);
      cqTailPtr := pollCqTail;
      cqHwTailPtr := cqTailPtr % U16;
      g := R.Step(g, R.PollPublish);
    }

    /** mqnic_tx_read_tail_ptr and mqnic_rx_read_tail_ptr */
    method ReadTail()
      requires Valid() && g.poll.Published?
      modifies this
      ensures Valid() && R.Enabled(old(g), R.PollReadTail) && g == R.Step(old(g), R.PollReadTail)
    {
      R.StepKeeps(g, R.PollReadTail);
      RecoverExact(g.tail, g.nicTail);
      tailPtr := Recover(tailPtr, hwTailPtr);
      pollClean := cleanTailPtr;
      g := R.Step(g, R.PollReadTail);
    }

    /** The test of the clean scan: stop at the NIC's tail or at a slot still in use. */
    method ScanContinues() returns (more: bool)
      requires Valid() && g.poll.Scanning?
      ensures more == R.Enabled(g, R.PollScan)
      ensures !more == R.Enabled(g, R.PollClean)
    {
      Equal32(g.tail, g.poll.at);
      SlotOfTruncated(g.poll.at, size);
      more := pollClean != tailPtr && info[pollClean % size].None?;
    }

    method ScanOne()
      requires Valid() && R.Enabled(g, R.PollScan)
      modifies this
      ensures Valid() && g == R.Step(old(g), R.PollScan)
    {
      R.StepKeeps(g, R.PollScan);
      Increment(g.poll.at);
      assert R.Step(g, R.PollScan) == g.(poll := R.Scanning(g.poll.at + 1));
      hide R.Inv, RingSize, R.Slot, R.Step, R.Enabled;
      pollClean := (pollClean + 1) % U32;
      g := R.Step(g, R.PollScan);
    }

    method PublishClean()
      requires Valid() && R.Enabled(g, R.PollClean)
      modifies this
      ensures Valid() && g == R.Step(old(g), R.PollClean)
    {
      R.StepKeeps(g, R.PollClean);
      cleanTailPtr := pollClean;
      g := R.Step(g, R.PollClean);
    }

    ghost method EndPoll()
      requires Valid() && g.poll.Cleaned?
      modifies this`g
      ensures Valid() && R.Enabled(old(g), R.PollEnd) && g == R.Step(old(g), R.PollEnd)
    {
      R.StepKeeps(g, R.PollEnd);
      g := R.Step(g, R.PollEnd);
    }

    ghost method GiveUp()
      requires Valid() && g.poll.Reading?
      modifies this`g
      ensures Valid() && R.Enabled(old(g), R.PollGiveUp) && g == R.Step(old(g), R.PollGiveUp)
    {
      R.StepKeeps(g, R.PollGiveUp);
      g := R.Step(g, R.PollGiveUp);
    }

    // The second half of a poll, run without interruption

    /** The clean scan: reclaim every leading descriptor whose buffer is gone. */
    method ReclaimSlots()
      requires Valid() && g.poll.Published?
      modifies this
      ensures Valid() && g.poll.Cleaned?
      ensures g == old(g).(tail := g.nicTail, clean := g.clean, poll := R.Cleaned)
      ensures old(g.clean) <= g.clean
      ensures g.clean == g.nicTail || g.slots[R.Slot(g.clean, size)].Some?
      ensures |g.completed| == g.cqTail == g.Head() ==> g.Occupancy() == 0
    {
      var scan := BeginScan();
      while scan
        invariant InScan(old(g), scan)
        decreases g.tail - g.poll.at
      {
        scan := ScanNext(old(g));
      }
      EndScan(old(g));
    }

    ghost predicate InScan(before: R.Ring, more: bool)
      reads this, info, cqBuf
    {
      && Valid() && g.poll.Scanning? && g.poll.at <= g.tail
      && g == before.(tail := before.nicTail, poll := g.poll)
      && more == R.Enabled(g, R.PollScan)
      && !more == R.Enabled(g, R.PollClean)
    }

    method BeginScan() returns (more: bool)
      requires Valid() && g.poll.Published?
      modifies this
      ensures InScan(old(g), more)
    {
      ReadTail();
      more := ScanContinues();
    }

    method ScanNext(ghost before: R.Ring) returns (more: bool)
      requires InScan(before, true)
      modifies this
      ensures InScan(before, more) && g.poll.at == old(g.poll.at) + 1
    {
      ScanOne();
      more := ScanContinues();
    }

    method EndScan(ghost before: R.Ring)
      requires InScan(before, false)
      modifies this
      ensures Valid() && g == before.(tail := before.nicTail, clean := g.clean, poll := R.Cleaned)
      ensures before.clean <= g.clean
      ensures g.clean == g.nicTail || g.slots[R.Slot(g.clean, size)].Some?
      ensures |g.completed| == g.cqTail == g.Head() ==> g.Occupancy() == 0
    {
      PublishClean();
      if |g.completed| == g.cqTail == g.Head() {
        R.Pigeonhole(g.completed, 0, g.nicTail);
        R.DrainedIsEmpty(g);
      }
    }
  }
}
