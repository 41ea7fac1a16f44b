/**
 * The receive queue: the shared ring protocol with mqnic_refill_rx_buffers as its
 * producer, run by the NAPI handler at the end of every poll and once at activation.
 */
module RxProtocol {
  import opened Wrappers
  import R = DescriptorRing

  type Buffer = R.Buffer

  /** Where mqnic_refill_rx_buffers stands. */
  datatype Refill = Idle | Filling(missing: nat) | Announcing

  /** What page allocation and DMA mapping yield for one slot. */
  datatype Alloc = NoPage | MapError(page: Buffer) | Page(page: Buffer)

  datatype State = State(
    ring: R.Ring,
    refill: Refill,
    supplied: seq<Buffer>,   // every page the allocator handed out
    returned: seq<Buffer>,    // pages given back because they could not be mapped
    nullPages: nat,           // times the "null page" branch was taken
    busySlots: nat            // times the "not yet processed" branch was taken
  )

  datatype Event =
    | Nic(step: R.Event)
    | Poll(step: R.Event)
    | NullPage                // the completed slot holds no page: leave the loop
    | NoSkb                   // no socket buffer for the page: leave the loop
    | BeginRefill
    | Fill(alloc: Alloc)
    | FillDone
    | Announce

  predicate NicStep(e: R.Event) {
    e.Consume? || e.Complete?
  }

  /** Another completion is at hand and within budget. */
  predicate AtCompletion(r: R.Ring) {
    r.poll.Reading? && r.poll.left > 0 && r.cqRead < r.cqHead
  }

  ghost predicate PageAtCompletion(r: R.Ring)
  {
    && AtCompletion(r) && r.cqRead < |r.completed| && r.size == |r.slots| > 0
    && r.slots[R.Slot(r.completed[r.cqRead], r.size)].Some?
  }

  ghost predicate PollStep(r: R.Ring, e: R.Event)
  {
    || e.PollStart? || e.PollReadTail? || e.PollScan? || e.PollClean?
    || (e.PollHandle? && PageAtCompletion(r))
    || (e.PollPublish? && !AtCompletion(r))
  }

  /** A ring as activation finds it: empty, with the refill still to run. */
  function Initial(size: nat): State {
    State(R.Empty(size).(poll := R.Cleaned), Idle, [], [], 0, 0)
  }

  ghost predicate Enabled(s: State, e: Event)
  {
    match e
    case Nic(n) => NicStep(n) && R.Enabled(s.ring, n)
    case Poll(p) => PollStep(s.ring, p) && R.Enabled(s.ring, p)
    case NullPage =>
      AtCompletion(s.ring) && R.Enabled(s.ring, R.PollHandle) && !PageAtCompletion(s.ring)
    case NoSkb => PageAtCompletion(s.ring) && R.Enabled(s.ring, R.PollGiveUp)
    case BeginRefill => s.refill.Idle? && R.Enabled(s.ring, R.PollEnd)
    case Fill(_) =>
      s.refill.Filling? && s.refill.missing > 0 && R.Enabled(s.ring, R.PollEnd)
    case FillDone => s.refill == Filling(0)
    case Announce => s.refill.Announcing? && R.Enabled(s.ring, R.PollEnd)
  }

  ghost function Step(s: State, e: Event): State
    requires Enabled(s, e)
  {
    match e
    case Nic(n) => s.(ring := R.Step(s.ring, n))
    case Poll(p) => s.(ring := R.Step(s.ring, p))
    case NullPage => s.(ring := R.Step(s.ring, R.PollGiveUp), nullPages := s.nullPages + 1)
    case NoSkb => s.(ring := R.Step(s.ring, R.PollGiveUp))
    case BeginRefill =>
      var missing := s.ring.size - s.ring.Occupancy();
      if missing < 8 then s.(ring := R.Step(s.ring, R.PollEnd)) else s.(refill := Filling(missing))
    case Fill(a) => FillStep(s, a)
    case FillDone => s.(refill := Announcing)
    case Announce =>
      s.(ring := R.Step(R.Step(s.ring, R.Doorbell), R.PollEnd), refill := Idle)
  }

  /** mqnic_prepare_rx_desc, and the advance of head when it succeeds. */
  ghost function FillStep(s: State, a: Alloc): State
    requires Enabled(s, Fill(a))
  {
    if s.ring.slots[R.Slot(s.ring.Head(), s.ring.size)].Some? then
      s.(refill := Announcing, busySlots := s.busySlots + 1)
    else
      match a
      case NoPage => s.(refill := Announcing)
      case MapError(p) =>
        s.(refill := Announcing, supplied := s.supplied + [p], returned := s.returned + [p])
      case Page(p) =>
        s.(ring := Posting(s.ring, p), refill := Filling(s.refill.missing - 1),
           supplied := s.supplied + [p])
  }

  /** The slot at head filled and head advanced; the NIC sees neither before the doorbell. */
  ghost function Posting(r: R.Ring, p: Buffer): R.Ring
    requires r.size > 0 && |r.slots| == r.size
  {
    r.(slots := r.slots[R.Slot(r.Head(), r.size) := Some(p)], posted := r.posted + [p])
  }

  lemma PostingKeeps(r: R.Ring, p: Buffer)
    requires R.Inv(r) && R.Enabled(r, R.Map(p))
    ensures R.Enabled(R.Step(r, R.Map(p)), R.Push)
    ensures R.Step(R.Step(r, R.Map(p)), R.Push) == Posting(r, p)
    ensures R.Inv(Posting(r, p))
  {
    R.StepKeeps(r, R.Map(p));
    R.StepKeeps(R.Step(r, R.Map(p)), R.Push);
  }

  // The invariant

  ghost predicate Inv(s: State)
  {
    && R.Inv(s.ring) && s.ring.mapped == None
    && (!s.refill.Idle? ==> s.ring.poll.Cleaned?)
    && (s.refill.Filling? ==> s.refill.missing == s.ring.size - s.ring.Occupancy())
    && (s.refill.Idle? ==> s.ring.bell == s.ring.Head())
    && s.nullPages == 0 && s.busySlots == 0
    && multiset(s.supplied) == multiset(s.ring.posted) + multiset(s.returned)
  }

  lemma InitialInv(size: nat)
    requires size > 0
    ensures Inv(Initial(size))
  {
    R.EmptyInv(size);
  }

  lemma FillKeeps(s: State, a: Alloc)
    requires Inv(s) && Enabled(s, Fill(a))
    ensures Inv(Step(s, Fill(a)))
    ensures s.ring.slots[R.Slot(s.ring.Head(), s.ring.size)] == None
  {
    R.NoOverwrite(s.ring);
    if a.Page? {
      PostingKeeps(s.ring, a.page);
    }
  }

  lemma CompletionKeeps(s: State, e: Event)
    requires Inv(s) && Enabled(s, e) && (e.NullPage? || e.NoSkb?)
    ensures Inv(Step(s, e))
    ensures !e.NullPage?
  {
    R.UnhandledIsHeld(s.ring, s.ring.cqRead);
    R.StepKeeps(s.ring, R.PollGiveUp);
  }

  lemma RingKeeps(s: State, e: Event)
    requires Inv(s) && Enabled(s, e) && (e.Nic? || e.Poll?)
    ensures Inv(Step(s, e))
  {
    R.StepKeeps(s.ring, e.step);
  }

  lemma RefillKeeps(s: State, e: Event)
    requires Inv(s) && Enabled(s, e) && (e.BeginRefill? || e.FillDone? || e.Announce?)
    ensures Inv(Step(s, e))
  {
    match e
    case BeginRefill => R.StepKeeps(s.ring, R.PollEnd);
    case FillDone =>
    case Announce =>
      R.StepKeeps(s.ring, R.Doorbell);
      R.StepKeeps(R.Step(s.ring, R.Doorbell), R.PollEnd);
  }

  /** Every step keeps the invariant. */
  lemma StepKeeps(s: State, e: Event)
    requires Inv(s) && Enabled(s, e)
    ensures Inv(Step(s, e))
  {
    match e
    case Nic(_) => RingKeeps(s, e);
    case Poll(_) => RingKeeps(s, e);
    case NullPage => CompletionKeeps(s, e);
    case NoSkb => CompletionKeeps(s, e);
    case Fill(a) => FillKeeps(s, a);
    case _ => RefillKeeps(s, e);
  }

  lemma SizeKept(s: State, e: Event)
    requires Enabled(s, e)
    ensures Step(s, e).ring.size == s.ring.size
  {
    hide R.Slot, R.Enabled;
  }

  // Runs

  /** The events of es can occur in order from s. */
  ghost predicate Legal(s: State, es: seq<Event>)
  {
    es == [] || (Legal(s, es[..|es| - 1]) && Enabled(Run(s, es[..|es| - 1]), es[|es| - 1]))
  }

  /** The state after the events of es that are possible when their turn comes. */
  ghost function Run(s: State, es: seq<Event>): State
  {
    if es == [] then s
    else
      var p := Run(s, es[..|es| - 1]);
      if Enabled(p, es[|es| - 1]) then Step(p, es[|es| - 1]) else p
  }

  lemma RunNone(s: State, es: seq<Event>)
    ensures Run(s, es[..0]) == s
  {
  }

  lemma {:induction false} LegalPrefix(s: State, es: seq<Event>, n: nat)
    requires Legal(s, es) && n <= |es|
    ensures Legal(s, es[..n])
    ensures n < |es| ==> Enabled(Run(s, es[..n]), es[n]) && Run(s, es[..n + 1]) == Step(Run(s, es[..n]), es[n])
    decreases |es|
  {
    if n < |es| {
      var front := es[..|es| - 1];
      LegalPrefix(s, front, n);
      assert front[..n] == es[..n];
      if n + 1 < |es| {
        assert front[..n + 1] == es[..n + 1];
      } else {
        assert front == es[..n] && es[..n + 1] == es;
      }
    } else {
      assert es[..n] == es;
    }
  }

  lemma {:induction false} RunKeeps(s: State, es: seq<Event>)
    requires Inv(s)
    ensures Inv(Run(s, es)) && Run(s, es).ring.size == s.ring.size
  {
    hide Inv, Enabled, Step;
    if es != [] {
      var p := Run(s, es[..|es| - 1]);
      RunKeeps(s, es[..|es| - 1]);
      if Enabled(p, es[|es| - 1]) {
        StepKeeps(p, es[|es| - 1]);
        SizeKept(p, es[|es| - 1]);
      }
    }
  }

  lemma Reached(size: nat, es: seq<Event>) returns (s: State)
    requires size > 0
    ensures s == Run(Initial(size), es) && Inv(s) && s.ring.size == size
  {
    InitialInv(size);
    RunKeeps(Initial(size), es);
    s := Run(Initial(size), es);
  }

  /** The two "cannot happen" branches of the driver are never taken, in any run. */
  lemma NoErrorBranch(size: nat, es: seq<Event>)
    requires size > 0
    ensures Run(Initial(size), es).nullPages == 0 && Run(Initial(size), es).busySlots == 0
  {
    var s := Reached(size, es);
  }

  /** Pointer order, and no more than one ring of pages outstanding, after any run. */
  lemma PointersOrdered(size: nat, es: seq<Event>)
    requires size > 0
    ensures var r := Run(Initial(size), es).ring;
      r.clean <= r.tail <= r.nicTail <= r.bell <= r.Head() <= r.clean + size
  {
    var s := Reached(size, es);
  }

  /** A slot outside [clean, head) holds no page, after any run. */
  lemma OutsideWindowNoPage(size: nat, es: seq<Event>, slot: nat)
    requires size > 0 && slot < size
    requires var r := Run(Initial(size), es).ring;
      forall i: nat :: r.clean <= i < r.Head() ==> R.Slot(i, size) != slot
    ensures var r := Run(Initial(size), es).ring; |r.slots| == size && r.slots[slot] == None
  {
    var s := Reached(size, es);
    R.OutsideWindowEmpty(s.ring, slot);
  }

  /**
   * Page ownership after any run: the pages the allocator handed out are those posted
   * plus those returned unmapped; and each posted page is either still in its slot or
   * was handed to the stack by exactly one completion.
   */
  lemma PagesConserved(size: nat, es: seq<Event>, i: nat)
    requires size > 0 && i < Run(Initial(size), es).ring.Head()
    ensures var s := Run(Initial(size), es); var r := s.ring;
      && multiset(s.supplied) == multiset(r.posted) + multiset(s.returned)
      && r.cqRead <= |r.completed| && |r.released| == r.cqRead && |r.slots| == size
      && (forall j, k :: 0 <= j < r.cqRead && 0 <= k < r.cqRead && r.completed[j] == i == r.completed[k] ==> j == k)
      && (forall k :: 0 <= k < r.cqRead && r.completed[k] == i ==> r.released[k] == Some(r.posted[i]))
      && ((exists k :: 0 <= k < r.cqRead && r.completed[k] == i)
          <==> !(r.clean <= i && r.slots[R.Slot(i, size)] == Some(r.posted[i])))
  {
    var s := Reached(size, es);
    R.ReleasedOnceOrHeld(s.ring, i);
  }

  /** The pages that the allocations of a run yielded, in order, if only those of one kind count. */
  function Pages(es: seq<Event>, mapped: bool, unmapped: bool): seq<Buffer> {
    if es == [] then []
    else
      var before := Pages(es[..|es| - 1], mapped, unmapped);
      match es[|es| - 1]
      case Fill(Page(p)) => if mapped then before + [p] else before
      case Fill(MapError(p)) => if unmapped then before + [p] else before
      case _ => before
  }

  /**
   * No page allocated is lost, in any run: in the order of their allocation, those that could
   * be mapped are exactly the ones posted, and those that could not exactly the ones given back.
   */
  lemma {:induction false} AllocationsAccounted(size: nat, es: seq<Event>)
    requires size > 0 && Legal(Initial(size), es)
    ensures var s := Run(Initial(size), es);
      && s.supplied == Pages(es, true, true)
      && s.ring.posted == Pages(es, true, false) && s.returned == Pages(es, false, true)
  {
    hide Inv, Enabled, Step, Initial;
    if es == [] {
      NothingYet(size);
    } else {
      var front, e := es[..|es| - 1], es[|es| - 1];
      AllocationsAccounted(size, front);
      var s := Reached(size, front);
      LogsChange(s, e);
    }
  }

  lemma NothingYet(size: nat)
    ensures var s := Initial(size); s.supplied == [] && s.ring.posted == [] && s.returned == []
  {
  }

  /** An allocation that yields a page is entered once in each log that it concerns. */
  lemma LogsChange(s: State, e: Event)
    requires Inv(s) && Enabled(s, e)
    ensures var next := Step(s, e);
      if e.Fill? && e.alloc.Page? then
        && next.supplied == s.supplied + [e.alloc.page] && next.ring.posted == s.ring.posted + [e.alloc.page]
        && next.returned == s.returned
      else if e.Fill? && e.alloc.MapError? then
        && next.supplied == s.supplied + [e.alloc.page] && next.returned == s.returned + [e.alloc.page]
        && next.ring.posted == s.ring.posted
      else next.supplied == s.supplied && next.ring.posted == s.ring.posted && next.returned == s.returned
  {
    if e.Fill? {
      FillKeeps(s, e.alloc);
    }
    hide Inv, R.Slot, R.Inv;
  }

  /** The completion queue, as large as the ring, never overflows; at rest every page is announced. */
  lemma QueuesBounded(size: nat, es: seq<Event>)
    requires size > 0
    ensures var s := Run(Initial(size), es);
      && 0 <= |s.ring.completed| - s.ring.cqTail <= size
      && (s.refill.Idle? ==> s.ring.bell == s.ring.Head())
  {
    var s := Reached(size, es);
    R.CompletionQueueFits(s.ring);
  }
}
