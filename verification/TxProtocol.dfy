/**
 * The transmit queue: the shared ring protocol driven by mqnic_start_xmit, with the
 * stop/wake handshake between it and mqnic_process_tx_cq.
 */
module TxProtocol {
  import opened Wrappers
  import R = DescriptorRing

  type Buffer = R.Buffer

  /** Where mqnic_start_xmit stands between two shared accesses. */
  datatype Xmit =
    | Idle
    | Mapped               // slot filled, head not yet advanced
    | Posted               // head advanced, full test next
    | Stopping             // ring seen full, about to stop the queue
    | Ringing(stop: bool)  // about to ring the doorbell if it must
    | Rechecking           // queue stopped, full test again
    | Waking               // ring seen not full, about to wake the queue

  /** Where mqnic_process_tx_cq stands in its final wake test. */
  datatype Wake = Untested | SawStopped | Waking

  datatype State = State(
    ring: R.Ring,
    xmit: Xmit,
    wake: Wake,
    stopped: bool,
    dropped: seq<Buffer>
  )

  datatype Event =
    | Drop(buffer: Buffer)       // rejected before its slot is touched
    | Map(buffer: Buffer)
    | MapFailed
    | Push
    | TestFull
    | Stop
    | Doorbell(more: bool)
    | Recheck
    | XmitWake
    | Nic(consumes: R.Event)
    | Poll(step: R.Event)
    | TestStopped
    | TestRoom
    | PollWake

  function FullSize(s: State): nat {
    s.ring.size / 2
  }

  predicate Full(s: State) {
    s.ring.Occupancy() >= FullSize(s)
  }

  predicate NicStep(e: R.Event) {
    e.Consume? || e.Complete?
  }

  /** The steps of the NAPI handler that only concern the ring. */
  predicate PollStep(r: R.Ring, e: R.Event) {
    || e.PollStart? || e.PollReadTail? || e.PollScan? || e.PollClean?
    || e.PollHandle?
    || (e.PollPublish? && r.poll.Reading? && (r.cqHead == r.cqRead || r.poll.left == 0))
  }

  function Initial(size: nat): State {
    State(R.Empty(size), Idle, Untested, false, [])
  }

  ghost predicate Enabled(s: State, e: Event)
  {
    match e
    case Drop(_) => s.xmit.Idle? && !s.stopped
    case Map(b) => s.xmit.Idle? && !s.stopped && R.Enabled(s.ring, R.Map(b))
    case MapFailed => s.xmit.Mapped? && R.Enabled(s.ring, R.Unmap)
    case Push => s.xmit.Mapped? && R.Enabled(s.ring, R.Push)
    case TestFull => s.xmit.Posted?
    case Stop => s.xmit.Stopping?
    case Doorbell(_) => s.xmit.Ringing? && R.Enabled(s.ring, R.Doorbell)
    case Recheck => s.xmit.Rechecking?
    case XmitWake => s.xmit.Waking?
    case Nic(n) => NicStep(n) && R.Enabled(s.ring, n)
    case Poll(p) => PollStep(s.ring, p) && R.Enabled(s.ring, p)
    case TestStopped => s.ring.poll.Cleaned? && s.wake.Untested? && R.Enabled(s.ring, R.PollEnd)
    case TestRoom => s.ring.poll.Cleaned? && s.wake.SawStopped? && R.Enabled(s.ring, R.PollEnd)
    case PollWake => s.ring.poll.Cleaned? && s.wake.Waking? && R.Enabled(s.ring, R.PollEnd)
  }

  ghost function Step(s: State, e: Event): State
    requires Enabled(s, e)
  {
    match e
    case Drop(b) => s.(dropped := s.dropped + [b])
    case Map(b) => s.(ring := R.Step(s.ring, R.Map(b)), xmit := Mapped)
    case MapFailed =>
      s.(ring := R.Step(s.ring, R.Unmap), xmit := Idle, dropped := s.dropped + [s.ring.mapped.value])
    case Push => s.(ring := R.Step(s.ring, R.Push), xmit := Posted)
    case TestFull => s.(xmit := if Full(s) then Stopping else Ringing(false))
    case Stop => s.(stopped := true, xmit := Ringing(true))
    case Doorbell(more) =>
      s.(ring := if !more || s.xmit.stop then R.Step(s.ring, R.Doorbell) else s.ring,
         xmit := if s.xmit.stop then Rechecking else Idle)
    case Recheck => s.(xmit := if Full(s) then Idle else Xmit.Waking)
    case XmitWake => s.(stopped := false, xmit := Idle)
    case Nic(n) => s.(ring := R.Step(s.ring, n))
    case Poll(p) => s.(ring := R.Step(s.ring, p))
    case TestStopped =>
      if s.stopped then s.(wake := SawStopped) else s.(ring := R.Step(s.ring, R.PollEnd))
    case TestRoom =>
      if Full(s) then s.(wake := Untested, ring := R.Step(s.ring, R.PollEnd))
      else s.(wake := Wake.Waking)
    case PollWake =>
      s.(stopped := false, wake := Untested, ring := R.Step(s.ring, R.PollEnd))
  }

  // The invariant

  /**
   * How far a stale wake may let occupancy past the stop threshold. While the handler
   * has seen the queue stopped and not yet woken it, only start_xmit itself can restart
   * the queue, and it does so only below the threshold.
   */
  function Slack(s: State): nat {
    if s.wake.Untested? then 1 else 0
  }

  ghost predicate OccupancyBounded(s: State)
  {
    var occupancy, limit := s.ring.Occupancy(), FullSize(s) + Slack(s);
    && occupancy <= FullSize(s) + 1
    && (s.wake.Waking? ==> occupancy <= FullSize(s))
    && (!s.stopped ==> occupancy <= limit)
    && (!s.stopped && !s.xmit.Posted? && !s.xmit.Stopping? ==> occupancy < limit)
    && (s.xmit == Ringing(false) ==> occupancy < FullSize(s))
    && (s.xmit.Waking? ==> occupancy < FullSize(s))
  }

  /** Control flow of start_xmit, and its doorbell before it lets the queue rest stopped. */
  ghost predicate XmitSound(s: State)
  {
    && (s.ring.mapped.Some? <==> s.xmit.Mapped?)
    && (s.stopped ==> s.xmit in {Idle, Ringing(true), Rechecking, Xmit.Waking})
    && (s.stopped && s.xmit != Ringing(true) ==> s.ring.bell == s.ring.Head())
    && (s.wake != Untested ==> s.ring.poll.Cleaned?)
  }

  /**
   * A stopped queue below the threshold has someone about to notice: start_xmit has yet
   * to finish its second full test, or the handler its wake test.
   */
  ghost predicate NoLostWakeup(s: State)
  {
    s.stopped && !Full(s) ==>
      || s.xmit in {Ringing(true), Rechecking, Xmit.Waking}
      || s.ring.poll.Cleaned?
  }

  ghost predicate Inv(s: State)
  {
    && R.Inv(s.ring)
    && OccupancyBounded(s)
    && XmitSound(s)
    && NoLostWakeup(s)
  }

  lemma InitialInv(size: nat)
    requires size > 0
    ensures Inv(Initial(size))
  {
    R.EmptyInv(size);
  }

  lemma MapKeeps(s: State, b: Buffer)
    requires Inv(s) && Enabled(s, Map(b))
    ensures Inv(Step(s, Map(b)))
  {
    R.StepKeeps(s.ring, R.Map(b));
  }

  lemma MapFailedKeeps(s: State)
    requires Inv(s) && Enabled(s, MapFailed)
    ensures Inv(Step(s, MapFailed))
  {
    R.StepKeeps(s.ring, R.Unmap);
  }

  lemma PushKeeps(s: State)
    requires Inv(s) && Enabled(s, Push)
    ensures Inv(Step(s, Push))
  {
    R.StepKeeps(s.ring, R.Push);
  }

  lemma DoorbellKeeps(s: State, more: bool)
    requires Inv(s) && Enabled(s, Doorbell(more))
    ensures Inv(Step(s, Doorbell(more)))
  {
    R.StepKeeps(s.ring, R.Doorbell);
  }

  lemma NicKeeps(s: State, n: R.Event)
    requires Inv(s) && Enabled(s, Nic(n))
    ensures Inv(Step(s, Nic(n)))
  {
    R.StepKeeps(s.ring, n);
  }

  lemma PollKeeps(s: State, p: R.Event)
    requires Inv(s) && Enabled(s, Poll(p))
    ensures Inv(Step(s, Poll(p)))
  {
    R.StepKeeps(s.ring, p);
    assert s.ring.poll.Scanning? ==> s.ring.clean <= s.ring.poll.at;
    hide R.Inv, R.Slot;
  }

  /** Steps that leave the ring alone, except perhaps to end a poll. */
  lemma HandshakeKeeps(s: State, e: Event)
    requires Inv(s) && Enabled(s, e)
    requires e in {TestFull, Stop, Recheck, XmitWake, TestStopped, TestRoom, PollWake}
    ensures Inv(Step(s, e))
  {
    hide *;
    if e in {TestFull, Stop, Recheck, XmitWake} {
      XmitKeeps(s, e);
    } else {
      WakeKeeps(s, e);
    }
  }

  lemma XmitKeeps(s: State, e: Event)
    requires Inv(s) && Enabled(s, e) && e in {TestFull, Stop, Recheck, XmitWake}
    ensures Inv(Step(s, e))
  {
    hide R.Inv, R.Slot, R.Step, R.Enabled;
  }

  lemma WakeKeeps(s: State, e: Event)
    requires Inv(s) && Enabled(s, e) && e in {TestStopped, TestRoom, PollWake}
    ensures Inv(Step(s, e))
  {
    R.StepKeeps(s.ring, R.PollEnd);
    hide R.Inv, R.Slot;
  }

  /** A whole clean scan, from reading the NIC's tail to publishing clean, keeps it too. */
  lemma ReclaimKeeps(s: State, ring: R.Ring)
    requires Inv(s) && s.ring.poll.Published? && R.Inv(ring)
    requires ring == s.ring.(tail := s.ring.nicTail, clean := ring.clean, poll := R.Cleaned)
    requires s.ring.clean <= ring.clean
    ensures Inv(s.(ring := ring))
  {
  }

  /** Every step of start_xmit, of the NIC and of the handler keeps the invariant. */
  lemma StepKeeps(s: State, e: Event)
    requires Inv(s) && Enabled(s, e)
    ensures Inv(Step(s, e))
  {
    match e
    case Drop(_) =>
    case Map(b) => MapKeeps(s, b);
    case MapFailed => MapFailedKeeps(s);
    case Push => PushKeeps(s);
    case Doorbell(more) => DoorbellKeeps(s, more);
    case Nic(n) => NicKeeps(s, n);
    case Poll(p) => PollKeeps(s, p);
    case _ => HandshakeKeeps(s, e);
  }

  // Runs

  /** The events of es can occur in order from s. */
  ghost predicate Legal(s: State, es: seq<Event>)
  {
    es == [] || (Legal(s, es[..|es| - 1]) && Enabled(Run(s, es[..|es| - 1]), es[|es| - 1]))
  }

  /** The state after the events of es; s itself when they are not legal. */
  ghost function Run(s: State, es: seq<Event>): State
  {
    if es == [] then s
    else
      var p := Run(s, es[..|es| - 1]);
      if Enabled(p, es[|es| - 1]) then Step(p, es[|es| - 1]) else p
  }

  lemma RunNone(s: State, es: seq<Event>)
    ensures Run(s, es[..0]) == s
  {
  }

  lemma {:induction false} LegalPrefix(s: State, es: seq<Event>, n: nat)
    requires Legal(s, es) && n <= |es|
    ensures Legal(s, es[..n])
    ensures n < |es| ==> Enabled(Run(s, es[..n]), es[n]) && Run(s, es[..n + 1]) == Step(Run(s, es[..n]), es[n])
    decreases |es|
  {
    if n < |es| {
      var front := es[..|es| - 1];
      LegalPrefix(s, front, n);
      assert front[..n] == es[..n];
      if n + 1 < |es| {
        assert front[..n + 1] == es[..n + 1];
      } else {
        assert front == es[..n] && es[..n + 1] == es;
      }
    } else {
      assert es[..n] == es;
    }
  }

  lemma {:induction false} RunKeeps(s: State, es: seq<Event>)
    requires Inv(s)
    ensures Inv(Run(s, es))
  {
    if es != [] {
      var p := Run(s, es[..|es| - 1]);
      RunKeeps(s, es[..|es| - 1]);
      if Enabled(p, es[|es| - 1]) {
        StepKeeps(p, es[|es| - 1]);
      }
    }
  }

  lemma Reached(size: nat, es: seq<Event>) returns (s: State)
    requires size > 0
    ensures s == Run(Initial(size), es) && Inv(s) && s.ring.size == size
  {
    InitialInv(size);
    RunKeeps(Initial(size), es);
    SizeFixed(Initial(size), es);
    s := Run(Initial(size), es);
  }

  lemma {:induction false} SizeFixed(s: State, es: seq<Event>)
    ensures Run(s, es).ring.size == s.ring.size
  {
    if es != [] {
      SizeFixed(s, es[..|es| - 1]);
    }
  }

  /** Pointer order and the bound on occupancy, after any run. */
  lemma PointersOrdered(size: nat, es: seq<Event>)
    requires size > 0
    ensures var r := Run(Initial(size), es).ring;
      r.clean <= r.tail <= r.nicTail <= r.bell <= r.Head() <= r.clean + size / 2 + 1 <= r.clean + size
  {
    var s := Reached(size, es);
  }

  /**
   * After any run: a slot holds a buffer only for a descriptor between clean and head,
   * or for the packet start_xmit is mapping; and when start_xmit is about to map a
   * packet its slot is empty.
   */
  lemma SlotSafety(size: nat, es: seq<Event>, slot: nat)
    requires size > 0 && slot < size
    ensures var s := Run(Initial(size), es);
      && |s.ring.slots| == size
      && (s.ring.slots[slot].Some? ==>
            || (exists i: nat :: s.ring.clean <= i < s.ring.Head() && R.Slot(i, size) == slot
                                 && s.ring.slots[slot] == Some(s.ring.posted[i]))
            || (s.xmit.Mapped? && R.Slot(s.ring.Head(), size) == slot))
      && (s.xmit.Idle? && !s.stopped ==> s.ring.slots[R.Slot(s.ring.Head(), size)] == None)
  {
    var s := Reached(size, es);
    var i := R.SlotOwner(s.ring, slot);
    assert s.ring.slots[R.Slot(i, size)] == R.Content(s.ring, i);
    if s.xmit.Idle? && !s.stopped {
      R.NoOverwrite(s.ring);
    }
  }

  /**
   * After any run every accepted packet is either still in its slot or has been
   * consumed by exactly one completion, never both and never neither, and what that
   * completion consumed is the very packet posted.
   */
  lemma ConsumedExactlyOnce(size: nat, es: seq<Event>, i: nat)
    requires size > 0
    requires i < Run(Initial(size), es).ring.Head()
    ensures var r := Run(Initial(size), es).ring;
      && r.cqRead <= |r.completed| && |r.released| == r.cqRead && |r.slots| == size
      && (forall j, k :: 0 <= j < r.cqRead && 0 <= k < r.cqRead && r.completed[j] == i == r.completed[k] ==> j == k)
      && (forall k :: 0 <= k < r.cqRead && r.completed[k] == i ==> r.released[k] == Some(r.posted[i]))
      && ((exists k :: 0 <= k < r.cqRead && r.completed[k] == i)
          <==> !(r.clean <= i && r.slots[R.Slot(i, size)] == Some(r.posted[i])))
  {
    var s := Reached(size, es);
    R.ReleasedOnceOrHeld(s.ring, i);
  }

  /** No completion ever finds an empty slot. */
  lemma NeverConsumesNull(size: nat, es: seq<Event>, k: nat)
    requires size > 0
    requires k < |Run(Initial(size), es).ring.released|
    ensures Run(Initial(size), es).ring.released[k].Some?
  {
    var s := Reached(size, es);
  }

  /** The packets that start_xmit was called with, in order. */
  function Offered(es: seq<Event>): seq<Buffer> {
    if es == [] then []
    else
      var before := Offered(es[..|es| - 1]);
      match es[|es| - 1]
      case Drop(b) => before + [b]
      case Map(b) => before + [b]
      case _ => before
  }

  /** The packet that start_xmit has mapped and not yet posted, if any. */
  function InHand(s: State): multiset<Buffer> {
    if s.ring.mapped.Some? then multiset{s.ring.mapped.value} else multiset{}
  }

  /** No packet is lost or doubled, in any run: each was posted, dropped, or is being posted. */
  lemma {:induction false} PacketsConserved(size: nat, es: seq<Event>)
    requires size > 0 && Legal(Initial(size), es)
    ensures var s := Run(Initial(size), es);
      multiset(Offered(es)) == multiset(s.ring.posted) + multiset(s.dropped) + InHand(s)
  {
    hide Inv, Enabled, Step, Initial, InHand;
    if es == [] {
      NothingYet(size);
    } else {
      var front, e := es[..|es| - 1], es[|es| - 1];
      PacketsConserved(size, front);
      var s := Reached(size, front);
      PacketMoves(s, e);
    }
  }

  lemma NothingYet(size: nat)
    ensures var s := Initial(size); s.ring.posted == [] && s.dropped == [] && InHand(s) == multiset{}
  {
  }

  /** A step moves the packet in hand at most, or takes a new one. */
  lemma PacketMoves(s: State, e: Event)
    requires Inv(s) && Enabled(s, e)
    ensures var next := Step(s, e);
      multiset(next.ring.posted) + multiset(next.dropped) + InHand(next)
        == multiset(s.ring.posted) + multiset(s.dropped) + InHand(s)
          + match e { case Drop(b) => multiset{b} case Map(b) => multiset{b} case _ => multiset{} }
  {
    hide *;
    if e.Drop? || e.MapFailed? {
      PacketDropped(s, e);
    } else if e.Map? {
      PacketTaken(s, e.buffer);
    } else if e.Push? {
      PacketPosted(s);
    } else {
      PacketStays(s, e);
    }
  }

  lemma PacketTaken(s: State, b: Buffer)
    requires Enabled(s, Map(b))
    ensures var next := Step(s, Map(b));
      && next.ring.posted == s.ring.posted && next.dropped == s.dropped
      && InHand(s) == multiset{} && InHand(next) == multiset{b}
  {
    hide R.Slot, Full;
  }

  lemma PacketDropped(s: State, e: Event)
    requires Inv(s) && Enabled(s, e) && (e.Drop? || e.MapFailed?)
    ensures var next := Step(s, e); var gone := if e.Drop? then multiset{e.buffer} else InHand(s);
      && next.ring.posted == s.ring.posted && multiset(next.dropped) == multiset(s.dropped) + gone
      && InHand(next) == if e.Drop? then InHand(s) else multiset{}
  {
    hide R.Slot, Full, R.Inv;
  }

  lemma PacketPosted(s: State)
    requires Inv(s) && Enabled(s, Push)
    ensures var next := Step(s, Push);
      && multiset(next.ring.posted) == multiset(s.ring.posted) + InHand(s) && next.dropped == s.dropped
      && InHand(next) == multiset{}
  {
    hide R.Slot, Full, R.Inv;
  }

  lemma PacketStays(s: State, e: Event)
    requires Enabled(s, e) && !(e.Drop? || e.Map? || e.MapFailed? || e.Push?)
    ensures var next := Step(s, e);
      next.ring.posted == s.ring.posted && next.dropped == s.dropped && InHand(next) == InHand(s)
  {
    hide R.Slot, Full;
    if e.Nic? {
      NoPacketMoves(s.ring, e.consumes);
    } else if e.Poll? {
      NoPacketMoves(s.ring, e.step);
    } else {
      hide R.Enabled;
    }
    hide R.Step;
  }

  lemma NoPacketMoves(r: R.Ring, e: R.Event)
    requires R.Enabled(r, e) && !e.Map? && !e.Unmap? && !e.Push?
    ensures R.Step(r, e).posted == r.posted && R.Step(r, e).mapped == r.mapped
  {
    hide R.Slot;
  }

  /** A completion queue as large as the ring holds every completion not yet returned. */
  lemma CompletionQueueNeverOverflows(size: nat, es: seq<Event>)
    requires size > 0
    ensures var r := Run(Initial(size), es).ring;
      0 <= |r.completed| - r.cqTail <= size / 2 + 1 <= size
  {
    var s := Reached(size, es);
    R.CompletionQueueFits(s.ring);
  }

  /**
   * No wake-up is lost: after any run, if the queue is stopped with room in the ring then
   * start_xmit has not finished its second test or the handler its wake test; a queue
   * that rests stopped is full, and every descriptor in it has been announced to the NIC.
   */
  lemma StoppedAtRestIsFull(size: nat, es: seq<Event>)
    requires size > 0
    requires Run(Initial(size), es).stopped
    ensures var s := Run(Initial(size), es);
      && (!Full(s) ==> s.xmit in {Ringing(true), Rechecking, Xmit.Waking} || s.ring.poll.Cleaned?)
      && (s.xmit.Idle? && s.ring.poll.Idle? ==>
            s.ring.Occupancy() >= size / 2 && s.ring.bell == s.ring.Head())
  {
    var s := Reached(size, es);
  }

  // When occupancy exceeds the threshold

  /** The handler, having seen room, wakes a queue that has filled up and stopped again meanwhile. */
  ghost predicate LateWake(s: State, e: Event)
  {
    e.PollWake? && Enabled(s, e) && s.stopped && Full(s)
  }

  /** No wake of the run comes late. */
  ghost predicate Timely(s: State, es: seq<Event>)
  {
    es == [] || (Timely(s, es[..|es| - 1]) && !LateWake(Run(s, es[..|es| - 1]), es[|es| - 1]))
  }

  /** Occupancy while no wake has come late: start_xmit runs only below the threshold. */
  ghost predicate WithinThreshold(s: State)
  {
    && s.ring.Occupancy() <= FullSize(s)
    && (!s.stopped && !s.xmit.Posted? && !s.xmit.Stopping? ==> s.ring.Occupancy() < FullSize(s))
  }

  lemma TimelyStep(s: State, e: Event)
    requires Inv(s) && WithinThreshold(s) && Enabled(s, e) && !LateWake(s, e)
    ensures WithinThreshold(Step(s, e))
  {
    if e.Nic? || e.Poll? {
      TimelyRing(s, e);
    } else {
      TimelyQueue(s, e);
    }
  }

  /** The NIC's and the handler's ring steps never raise occupancy. */
  lemma TimelyRing(s: State, e: Event)
    requires Inv(s) && WithinThreshold(s) && Enabled(s, e) && (e.Nic? || e.Poll?)
    ensures WithinThreshold(Step(s, e))
  {
    var next := Step(s, e).ring;
    assert next.posted == s.ring.posted && next.size == s.ring.size && next.clean >= s.ring.clean by {
      assert s.ring.poll.Scanning? ==> s.ring.clean <= s.ring.poll.at;
      hide Inv, R.Slot;
    }
    assert Step(s, e) == s.(ring := next);
    hide Inv, R.Inv, R.Slot, Enabled, Step, R.Step;
  }

  /** Those of start_xmit and of the wake test raise it only where there is room. */
  lemma TimelyQueue(s: State, e: Event)
    requires Inv(s) && WithinThreshold(s) && Enabled(s, e) && !LateWake(s, e) && !e.Nic? && !e.Poll?
    ensures WithinThreshold(Step(s, e))
  {
    assert OccupancyBounded(s) && XmitSound(s);
    hide Inv, NoLostWakeup, R.Slot;
  }

  /** Unless a wake comes late, in a ring of two slots or more, occupancy stays within the threshold. */
  lemma {:induction false} ThresholdKept(size: nat, es: seq<Event>)
    requires size >= 2 && Timely(Initial(size), es)
    ensures WithinThreshold(Run(Initial(size), es))
  {
    if es != [] {
      var p := Reached(size, es[..|es| - 1]);
      ThresholdKept(size, es[..|es| - 1]);
      if Enabled(p, es[|es| - 1]) {
        TimelyStep(p, es[|es| - 1]);
      }
    }
  }

  lemma Extend(s: State, es: seq<Event>, e: Event)
    requires Legal(s, es) && Enabled(Run(s, es), e)
    ensures Legal(s, es + [e]) && Run(s, es + [e]) == Step(Run(s, es), e)
  {
    assert (es + [e])[..|es|] == es;
  }

  /** The events of es lead from one state to another. */
  ghost predicate Leads(from: State, es: seq<Event>, to: State)
  {
    Legal(from, es) && Run(from, es) == to
  }

  lemma Advance(from: State, es: seq<Event>, s: State, e: Event) returns (es': seq<Event>, t: State)
    requires Leads(from, es, s) && Inv(s) && Enabled(s, e)
    ensures Leads(from, es', t) && Inv(t) && t == Step(s, e) && es' == es + [e]
  {
    Extend(from, es, e);
    es', t := es + [e], Step(s, e);
    StepKeeps(s, e);
  }

  lemma Post(from: State, es: seq<Event>, s: State, b: Buffer) returns (es': seq<Event>, t: State)
    requires Leads(from, es, s) && Inv(s) && s.xmit.Idle? && !s.stopped
    ensures Leads(from, es', t) && Inv(t) && t == s.(ring := t.ring, xmit := Posted)
    ensures t.ring == s.ring.(slots := t.ring.slots, posted := s.ring.posted + [b]) && es' == es + [Map(b), Push]
  {
    hide *;
    MapMeans(s, b);
    var mid;
    es', mid := Advance(from, es, s, Map(b));
    PushMeans(mid);
    es', t := Advance(from, es', mid, Push);
  }

  lemma MapMeans(s: State, b: Buffer)
    requires Inv(s) && s.xmit.Idle? && !s.stopped
    ensures Enabled(s, Map(b))
    ensures var next := Step(s, Map(b));
      && next == s.(ring := next.ring, xmit := Mapped)
      && next.ring == s.ring.(slots := next.ring.slots, mapped := Some(b))
    ensures s.ring.mapped == None
  {
    assert s.ring.mapped == None && s.ring.Occupancy() < s.ring.size == |s.ring.slots|;
    hide R.Slot, Inv;
  }

  lemma PushMeans(s: State)
    requires Inv(s) && s.xmit.Mapped? && s.ring.mapped.Some?
    ensures Enabled(s, Push)
    ensures Step(s, Push)
         == s.(ring := s.ring.(posted := s.ring.posted + [s.ring.mapped.value], mapped := None), xmit := Posted)
  {
  }

  /** start_xmit sends a packet that does not fill the ring to its threshold. */
  lemma Send(from: State, es: seq<Event>, s: State, b: Buffer) returns (es': seq<Event>, t: State)
    requires Leads(from, es, s) && Inv(s) && s.xmit.Idle? && !s.stopped
    requires s.ring.Occupancy() + 1 < FullSize(s)
    ensures Leads(from, es', t) && Inv(t) && t == s.(ring := t.ring)
    ensures t.ring == s.ring.(slots := t.ring.slots, posted := t.ring.posted, bell := t.ring.Head())
    ensures t.ring.Head() == s.ring.Head() + 1
  {
    es', t := Post(from, es, s, b);
    assert |t.ring.slots| == t.ring.size > 0;
    hide Leads, Inv;
    es', t := Advance(from, es', t, TestFull);
    es', t := Advance(from, es', t, Doorbell(false));
  }

  /** start_xmit sends the packet that fills the ring to its threshold, up to its second full test. */
  lemma SendAndStop(from: State, es: seq<Event>, s: State, b: Buffer) returns (es': seq<Event>, t: State)
    requires Leads(from, es, s) && Inv(s) && s.xmit.Idle? && !s.stopped
    requires s.ring.Occupancy() + 1 == FullSize(s)
    ensures Leads(from, es', t) && Inv(t)
    ensures t == s.(ring := t.ring, stopped := true, xmit := Rechecking)
    ensures t.ring == s.ring.(slots := t.ring.slots, posted := t.ring.posted, bell := t.ring.Head())
    ensures t.ring.Head() == s.ring.Head() + 1
  {
    es', t := Post(from, es, s, b);
    assert |t.ring.slots| == t.ring.size > 0;
    hide Leads, Inv;
    es', t := Advance(from, es', t, TestFull);
    es', t := Advance(from, es', t, Stop);
    es', t := Advance(from, es', t, Doorbell(false));
  }

  /** Packets are sent until one more would fill the ring to its threshold. */
  lemma {:induction false} SendUpTo(from: State, es: seq<Event>, s: State) returns (es': seq<Event>, t: State)
    requires Leads(from, es, s) && Inv(s) && s.xmit.Idle? && !s.stopped
    requires s.ring.Occupancy() + 1 <= FullSize(s)
    ensures Leads(from, es', t) && Inv(t) && t == s.(ring := t.ring) && t.ring.Occupancy() + 1 == FullSize(t)
    ensures t.ring == s.ring.(slots := t.ring.slots, posted := t.ring.posted, bell := t.ring.bell)
    decreases FullSize(s) - s.ring.Occupancy()
  {
    hide Leads, Inv;
    es', t := es, s;
    if s.ring.Occupancy() + 1 < FullSize(s) {
      es', t := Send(from, es, s, 0);
      es', t := SendUpTo(from, es', t);
    }
  }

  /** The handler rests, and the NIC has yet to consume the oldest descriptor. */
  ghost predicate OldestWaiting(s: State)
  {
    && s.ring.poll.Idle?
    && s.ring.nicTail == s.ring.clean < s.ring.bell
    && s.ring.cqRead == |s.ring.completed|
  }

  lemma CompleteOldest(from: State, es: seq<Event>, s: State) returns (es': seq<Event>, t: State)
    requires Leads(from, es, s) && Inv(s) && OldestWaiting(s)
    ensures Leads(from, es', t) && Inv(t) && t == s.(ring := t.ring)
    ensures t.ring == s.ring.(nicTail := s.ring.clean + 1, completed := s.ring.completed + [s.ring.clean])
  {
    assert s.ring.clean !in s.ring.completed;
    assert |s.ring.slots| == s.ring.size > 0;
    hide Leads, Inv;
    es', t := Advance(from, es, s, Nic(R.Consume));
    es', t := Advance(from, es', t, Nic(R.Complete(s.ring.clean)));
  }

  lemma HandleOldest(from: State, es: seq<Event>, s: State) returns (es': seq<Event>, t: State)
    requires Leads(from, es, s) && Inv(s) && s.ring.poll.Idle?
    requires s.ring.cqRead + 1 == |s.ring.completed| && s.ring.completed[s.ring.cqRead] == s.ring.clean
    ensures Leads(from, es', t) && Inv(t) && t == s.(ring := t.ring)
    ensures |s.ring.slots| == s.ring.size > 0
    ensures t.ring == s.ring.(slots := s.ring.slots[R.Slot(s.ring.clean, s.ring.size) := None],
                              released := t.ring.released, cqHead := |s.ring.completed|,
                              cqRead := |s.ring.completed|, poll := R.Reading(63))
  {
    assert |s.ring.slots| == s.ring.size > 0;
    hide Leads, Inv, R.Slot;
    es', t := Advance(from, es, s, Poll(R.PollStart(64)));
    es', t := Advance(from, es', t, Poll(R.PollHandle));
  }

  lemma PublishOldest(from: State, es: seq<Event>, s: State) returns (es': seq<Event>, t: State)
    requires Leads(from, es, s) && Inv(s) && s.ring.poll.Reading? && s.ring.cqRead == s.ring.cqHead
    ensures Leads(from, es', t) && Inv(t) && t == s.(ring := t.ring)
    ensures t.ring == s.ring.(cqTail := s.ring.cqRead, tail := s.ring.nicTail, poll := R.Scanning(s.ring.clean))
  {
    assert |s.ring.slots| == s.ring.size > 0;
    hide Leads, Inv;
    es', t := Advance(from, es, s, Poll(R.PollPublish));
    es', t := Advance(from, es', t, Poll(R.PollReadTail));
  }

  lemma CleanOldest(from: State, es: seq<Event>, s: State) returns (es': seq<Event>, t: State)
    requires Leads(from, es, s) && Inv(s)
    requires s.ring.poll == R.Scanning(s.ring.clean) && s.ring.clean + 1 == s.ring.tail
    requires s.ring.size == |s.ring.slots| > 0 && s.ring.slots[R.Slot(s.ring.clean, s.ring.size)] == None
    ensures Leads(from, es', t) && Inv(t) && t == s.(ring := t.ring)
    ensures t.ring == s.ring.(clean := s.ring.clean + 1, poll := R.Cleaned)
  {
    hide Leads, Inv, R.Slot;
    es', t := Advance(from, es, s, Poll(R.PollScan));
    es', t := Advance(from, es', t, Poll(R.PollClean));
  }

  /** The handler decides to wake the queue; start_xmit restarts it first. */
  lemma BothDecideToWake(from: State, es: seq<Event>, s: State) returns (es': seq<Event>, t: State)
    requires Leads(from, es, s) && Inv(s) && s.stopped && s.xmit.Rechecking? && s.wake.Untested?
    requires s.ring.poll.Cleaned? && !Full(s)
    ensures Leads(from, es', t) && Inv(t)
    ensures t == s.(stopped := false, xmit := Idle, wake := Wake.Waking)
  {
    assert |s.ring.slots| == s.ring.size > 0;
    hide Leads, Inv;
    es', t := Advance(from, es, s, TestStopped);
    es', t := Advance(from, es', t, TestRoom);
    es', t := Advance(from, es', t, Recheck);
    es', t := Advance(from, es', t, XmitWake);
  }

  /** The oldest packet is completed and reclaimed while start_xmit stands before its second test. */
  lemma ReclaimOldest(from: State, es: seq<Event>, s: State) returns (es': seq<Event>, t: State)
    requires Leads(from, es, s) && Inv(s) && OldestWaiting(s)
    ensures Leads(from, es', t) && Inv(t) && t == s.(ring := t.ring) && t.ring.poll.Cleaned?
    ensures t.ring.size == s.ring.size && t.ring.Head() == s.ring.Head() && t.ring.clean == s.ring.clean + 1
  {
    hide Leads, Inv, R.Slot;
    es', t := CompleteOldest(from, es, s);
    es', t := HandleOldest(from, es', t);
    es', t := PublishOldest(from, es', t);
    es', t := CleanOldest(from, es', t);
  }

  /** From a late wake on, start_xmit alone takes the ring past its threshold. */
  lemma LateWakeExceeds(s: State) returns (es: seq<Event>, t: State)
    requires Inv(s) && LateWake(s, PollWake)
    ensures Leads(s, [PollWake] + es, t) && t.ring.Occupancy() == FullSize(t) + 1
  {
    hide *;
    LateWakeMeans(s);
    var woken, done, all;
    all, woken := Advance(s, [], s, PollWake);
    all, done := FinishXmit(s, all, woken);
    all, t := Post(s, all, done, 1);
    es := all[1..];
    assert all == [PollWake] + es;
    OneTooMany(s, woken, done, t);
  }

  lemma LateWakeMeans(s: State)
    requires Inv(s) && LateWake(s, PollWake)
    ensures Leads(s, [], s) && Enabled(s, PollWake)
    ensures s.ring.Occupancy() == FullSize(s)
    ensures var woken := Step(s, PollWake);
      && woken == s.(stopped := false, wake := Untested, ring := s.ring.(poll := R.Idle))
      && Full(woken) && woken.xmit in {Idle, Ringing(true), Rechecking}
  {
    AllSlots(s);
    assert s.xmit in {Idle, Ringing(true), Rechecking};
    assert s.ring.Occupancy() == FullSize(s);
    hide Inv, R.Slot;
  }

  lemma OneTooMany(s: State, woken: State, done: State, t: State)
    requires s.ring.Occupancy() == FullSize(s)
    requires woken == s.(stopped := false, wake := Untested, ring := s.ring.(poll := R.Idle))
    requires done == woken.(xmit := Idle, ring := done.ring) && done.ring == woken.ring.(bell := done.ring.bell)
    requires t == done.(ring := t.ring, xmit := Posted)
    requires t.ring == done.ring.(slots := t.ring.slots, posted := done.ring.posted + [1])
    ensures t.ring.Occupancy() == FullSize(t) + 1
  {
  }

  /** start_xmit finds the ring full again and returns. */
  lemma FinishXmit(from: State, es: seq<Event>, s: State) returns (es': seq<Event>, t: State)
    requires Leads(from, es, s) && Inv(s) && Full(s) && s.xmit in {Idle, Ringing(true), Rechecking}
    requires es != []
    ensures Leads(from, es', t) && Inv(t) && es <= es'
    ensures t == s.(xmit := Idle, ring := t.ring) && t.ring == s.ring.(bell := t.ring.bell)
  {
    AllSlots(s);
    hide Leads, Inv, R.Slot;
    es', t := es, s;
    if t.xmit.Ringing? {
      es', t := Advance(from, es', t, Doorbell(false));
    }
    if t.xmit.Rechecking? {
      es', t := Advance(from, es', t, Recheck);
    }
  }

  lemma IsLate(s: State)
    requires Inv(s) && s.ring.poll.Cleaned? && s.wake.Waking? && s.stopped && Full(s)
    ensures LateWake(s, PollWake)
  {
  }

  /** A run to a late wake, in a ring of any size but one. */
  lemma LateWakeReached(size: nat) returns (es: seq<Event>, t: State)
    requires size >= 2
    ensures Leads(Initial(size), es, t) && Inv(t) && LateWake(t, PollWake) && t.xmit.Rechecking?
  {
    var s := Initial(size);
    InitialInv(size);
    assert Leads(s, [], s);
    hide Leads, Inv, LateWake, Enabled, R.Slot;
    es, t := SendUpTo(s, [], s);
    es, t := SendAndStop(s, es, t, 0);
    es, t := ReclaimOldest(s, es, t);
    es, t := BothDecideToWake(s, es, t);
    es, t := SendAndStop(s, es, t, 0);
    IsLate(t);
  }

  lemma AllSlots(s: State)
    requires Inv(s)
    ensures |s.ring.slots| == s.ring.size > 0
  {
  }

  /**
   * A wake decided while there was room can land after start_xmit has restarted the queue
   * and filled the ring again. So in a ring of any size occupancy does reach one past the
   * threshold; with a single slot, whose threshold is zero, the first packet does it.
   */
  lemma ThresholdExceeded(size: nat) returns (es: seq<Event>)
    requires size > 0
    ensures Legal(Initial(size), es)
    ensures Run(Initial(size), es).ring.Occupancy() == size / 2 + 1
  {
    hide *;
    var s, t, more;
    if size == 1 {
      es, t := OnlySlotFilled();
    } else {
      es, s := LateWakeReached(size);
      more, t := LateWakeExceeds(s);
      es := JoinedRuns(Initial(size), es, s, [PollWake] + more, t);
    }
    Exceeded(size, es, t);
  }

  lemma OnlySlotFilled() returns (es: seq<Event>, t: State)
    ensures Leads(Initial(1), es, t) && t.ring.Occupancy() == FullSize(t) + 1
  {
    hide *;
    EmptyStart(1);
    es, t := Post(Initial(1), [], Initial(1), 0);
    OnlySlotTaken(t);
  }

  lemma EmptyStart(size: nat)
    requires size > 0
    ensures Leads(Initial(size), [], Initial(size)) && Inv(Initial(size))
    ensures Initial(size).xmit.Idle? && !Initial(size).stopped
  {
    InitialInv(size);
    hide Inv;
  }

  lemma OnlySlotTaken(t: State)
    requires t == Initial(1).(ring := t.ring, xmit := Posted)
    requires t.ring == Initial(1).ring.(slots := t.ring.slots, posted := Initial(1).ring.posted + [0])
    ensures t.ring.Occupancy() == FullSize(t) + 1
  {
  }

  lemma JoinedRuns(from: State, es: seq<Event>, s: State, more: seq<Event>, t: State) returns (all: seq<Event>)
    requires Leads(from, es, s) && Leads(s, more, t)
    ensures Leads(from, all, t)
  {
    all := Joined(from, es, s, more);
  }

  lemma Exceeded(size: nat, es: seq<Event>, t: State)
    requires Leads(Initial(size), es, t) && t.ring.Occupancy() == FullSize(t) + 1
    ensures Legal(Initial(size), es) && Run(Initial(size), es).ring.Occupancy() == size / 2 + 1
  {
    SizeFixed(Initial(size), es);
    hide Legal, Run;
  }

  /** A ring of one slot, whose threshold is zero, stops for good with its first packet. */
  ghost predicate SentOnce(s: State)
  {
    && s.ring.size == 1 && s.wake != Wake.Waking
    && if s.ring.Head() == 0 then !s.stopped && s.xmit in {Idle, Mapped}
       else s.ring.Head() == 1 && if s.stopped then s.xmit in {Idle, Ringing(true), Rechecking}
                                  else s.xmit in {Posted, Stopping}
  }

  lemma SentOnceStep(s: State, e: Event)
    requires SentOnce(s) && Enabled(s, e) && s.ring.clean <= s.ring.Head()
    ensures SentOnce(Step(s, e))
  {
    hide R.Slot;
  }

  lemma {:induction false} SingleSlotSendsOnce(es: seq<Event>)
    ensures SentOnce(Run(Initial(1), es))
  {
    hide SentOnce, Step, Enabled;
    if es == [] {
      FirstPacket();
    } else {
      SingleSlotSendsOnce(es[..|es| - 1]);
      var p := Reached(1, es[..|es| - 1]);
      hide Inv;
      if Enabled(p, es[|es| - 1]) {
        SentOnceStep(p, es[|es| - 1]);
      }
    }
  }

  lemma FirstPacket()
    ensures SentOnce(Initial(1))
  {
  }

  lemma {:induction false} Joined(from: State, es: seq<Event>, s: State, more: seq<Event>) returns (all: seq<Event>)
    requires Leads(from, es, s) && Legal(s, more)
    ensures Leads(from, all, Run(s, more))
    decreases |more|
  {
    if more == [] {
      all := es;
    } else {
      var front := Joined(from, es, s, more[..|more| - 1]);
      Extend(from, front, more[|more| - 1]);
      all := front + [more[|more| - 1]];
    }
  }
}
