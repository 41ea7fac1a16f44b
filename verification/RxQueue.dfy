/**
 * mqnic_refill_rx_buffers and mqnic_process_rx_cq over one driver ring. Each shared
 * access performs one step of RxProtocol; the two routines are also given as wholes.
 *
 * A receive ring can be outstanding in full, so its size must leave a 16-bit register
 * able to tell a full turn from none: at most 2^15 entries.
 */
module RxQueue {
  import opened Numbers
  import opened Wrappers
  import opened Modular
  import R = DescriptorRing
  import D = DriverRing
  import P = RxProtocol

  type Buffer = R.Buffer

  class Queue {
    const dev: D.Ring
    ghost var g: P.State

    ghost predicate Valid()
      reads this, dev, dev.info, dev.cqBuf
    {
      dev.Valid() && dev.g == g.ring && dev.size <= U16 / 2 && P.Inv(g)
    }

    /** mqnic_alloc_rx_ring and mqnic_activate_rx_ring, up to its refill. */
    constructor (entries: nat)
      requires 0 < entries <= U16 / 2
      ensures Valid() && fresh(dev) && fresh(dev.info) && fresh(dev.cqBuf)
      ensures g == P.Initial(RoundUpPowerOfTwo(entries))
    {
      hide P.Inv, R.Inv, RoundUpPowerOfTwo, RingSize;
      RoundUpIsRingSize(entries);
      var n := RoundUpPowerOfTwo(entries);
      dev := new D.Ring(entries, true);
      g := P.Initial(n);
      new;
      P.InitialInv(n);
    }

    ghost method Follow(e: P.Event)
      requires P.Inv(g) && P.Enabled(g, e)
      requires dev.Valid() && dev.g == P.Step(g, e).ring && dev.size <= U16 / 2
      modifies this`g
      ensures Valid() && g == P.Step(old(g), e)
    {
      P.StepKeeps(g, e);
      g := P.Step(g, e);
    }

    // Steps of the NIC

    method NicConsume()
      requires Valid() && g.ring.nicTail < g.ring.bell
      modifies this, dev
      ensures Valid() && P.Enabled(old(g), P.Nic(R.Consume)) && g == P.Step(old(g), P.Nic(R.Consume))
    {
      dev.Consume();
      Follow(P.Nic(R.Consume));
    }

    method NicComplete(descriptor: nat)
      requires Valid() && descriptor < g.ring.nicTail && descriptor !in g.ring.completed
      modifies this, dev, dev.cqBuf
      ensures Valid() && P.Enabled(old(g), P.Nic(R.Complete(descriptor)))
      ensures g == P.Step(old(g), P.Nic(R.Complete(descriptor)))
    {
      dev.Complete(descriptor);
      Follow(P.Nic(R.Complete(descriptor)));
    }

    // Steps of mqnic_process_rx_cq

    method ReadCqHead(budget: nat)
      requires Valid() && g.ring.poll.Idle?
      modifies this, dev
      ensures Valid() && P.Enabled(old(g), P.Poll(R.PollStart(budget)))
      ensures g == P.Step(old(g), P.Poll(R.PollStart(budget)))
    {
      dev.ReadCqHead(budget);
      Follow(P.Poll(R.PollStart(budget)));
    }

    /**
     * One completion: the page of its slot goes to the stack, unless there is no socket
     * buffer to carry it. The slot always holds a page.
     */
    method HandOff(skbAvailable: bool) returns (page: Option<Buffer>)
      requires Valid() && P.AtCompletion(g.ring)
      modifies this, dev, dev.info
      ensures Valid()
      ensures P.Enabled(old(g), if skbAvailable then P.Poll(R.PollHandle) else P.NoSkb)
      ensures g == P.Step(old(g), if skbAvailable then P.Poll(R.PollHandle) else P.NoSkb)
      ensures page == if skbAvailable then Some(old(g.ring.posted[g.ring.completed[g.ring.cqRead]])) else None
    {
      var index := dev.CompletedSlot();
      if dev.info[index] == None {
        assert false;
      } else if !skbAvailable {
        dev.GiveUp();
        Follow(P.NoSkb);
        page := None;
      } else {
        page := dev.TakeCompleted();
        Follow(P.Poll(R.PollHandle));
      }
    }

    method PublishCqTail()
      requires Valid() && g.ring.poll.Reading? && !P.AtCompletion(g.ring)
      modifies this, dev
      ensures Valid() && P.Enabled(old(g), P.Poll(R.PollPublish)) && g == P.Step(old(g), P.Poll(R.PollPublish))
    {
      dev.PublishCqTail();
      Follow(P.Poll(R.PollPublish));
    }

    method ReadTail()
      requires Valid() && g.ring.poll.Published?
      modifies this, dev
      ensures Valid() && P.Enabled(old(g), P.Poll(R.PollReadTail)) && g == P.Step(old(g), P.Poll(R.PollReadTail))
    {
      dev.ReadTail();
      Follow(P.Poll(R.PollReadTail));
    }

    /** One turn of the clean scan; it reports whether the scan goes on. */
    method Scan() returns (advanced: bool)
      requires Valid() && g.ring.poll.Scanning?
      modifies this, dev
      ensures Valid()
      ensures P.Enabled(old(g), P.Poll(if advanced then R.PollScan else R.PollClean))
      ensures g == P.Step(old(g), P.Poll(if advanced then R.PollScan else R.PollClean))
    {
      advanced := dev.ScanContinues();
      if advanced {
        dev.ScanOne();
        Follow(P.Poll(R.PollScan));
      } else {
        dev.PublishClean();
        Follow(P.Poll(R.PollClean));
      }
    }

    method ReclaimSlots()
      requires Valid() && g.ring.poll.Published?
      modifies this, dev
      ensures Valid() && g.ring.poll.Cleaned?
      ensures g == old(g).(ring := old(g.ring).(tail := g.ring.nicTail, clean := g.ring.clean, poll := R.Cleaned))
      ensures g.ring.clean == g.ring.nicTail || g.ring.slots[R.Slot(g.ring.clean, dev.size)].Some?
    {
      dev.ReclaimSlots();
      g := g.(ring := dev.g);
    }

    // Steps of mqnic_refill_rx_buffers

    /** Count the empty slots; fewer than eight are left for a later poll. */
    method BeginRefill() returns (missing: nat)
      requires Valid() && g.ring.poll.Cleaned? && g.refill.Idle?
      modifies this, dev`g
      ensures Valid() && P.Enabled(old(g), P.BeginRefill) && g == P.Step(old(g), P.BeginRefill)
      ensures missing == dev.size - old(g.ring).Occupancy()
    {
      var occupied := dev.Occupied();
      missing := dev.size - occupied;
      if missing < 8 {
        dev.EndPoll();
      }
      Follow(P.BeginRefill);
    }

    lemma FillsSlot(alloc: P.Alloc)
      requires Valid() && g.refill.Filling? && g.refill.missing > 0
      ensures P.Enabled(g, P.Fill(alloc)) && g.ring.Occupancy() + 1 < U16
      ensures alloc.Page? ==> R.Enabled(g.ring, R.Map(alloc.page))
      ensures P.Step(g, P.Fill(alloc)).ring == if alloc.Page? then P.Posting(g.ring, alloc.page) else g.ring
      ensures P.Step(g, P.Fill(alloc)).refill
           == if alloc.Page? then P.Filling(g.refill.missing - 1) else P.Announcing
      ensures g.ring.slots[R.Slot(g.ring.Head(), dev.size)] == None
      ensures P.Inv(g) && dev.Valid() && dev.g == g.ring && dev.size <= U16 / 2
    {
      P.FillKeeps(g, alloc);
    }

    /** The slot at head filled and head advanced. */
    method PostPage(page: Buffer)
      requires dev.Valid() && dev.g.Occupancy() + 1 < U16 && R.Enabled(dev.g, R.Map(page))
      modifies dev, dev.info
      ensures dev.Valid() && dev.g == P.Posting(old(dev.g), page)
    {
      P.PostingKeeps(dev.g, page);
      dev.Fill(page);
      dev.AdvanceHead();
    }

    /** mqnic_prepare_rx_desc for the slot at head; on success head advances. */
    method PrepareDesc(alloc: P.Alloc) returns (ok: bool)
      requires Valid() && g.refill.Filling? && g.refill.missing > 0
      modifies this, dev, dev.info
      ensures Valid() && P.Enabled(old(g), P.Fill(alloc)) && g == P.Step(old(g), P.Fill(alloc))
      ensures ok == alloc.Page? && g.refill == if ok then P.Filling(old(g.refill.missing) - 1) else P.Announcing
      ensures g.ring == if ok then P.Posting(old(g.ring), alloc.page) else old(g.ring)
    {
      hide *;
      FillsSlot(alloc);
      var there := dev.SlotAtHead();
      if there.Some? {
        assert false;
      } else if alloc.Page? {
        PostPage(alloc.page);
      }
      Follow(P.Fill(alloc));
      ok := alloc.Page?;
    }

    method Announce()
      requires Valid() && (g.refill.Announcing? || g.refill == P.Filling(0))
      modifies this, dev
      ensures Valid() && g.ring.poll.Idle? && g.refill.Idle?
      ensures g == old(g).(ring := old(g.ring).(bell := old(g.ring.Head()), poll := R.Idle), refill := P.Idle)
    {
      if g.refill == P.Filling(0) {
        Follow(P.FillDone);
      }
      dev.WriteHeadPtr();
      dev.EndPoll();
      Follow(P.Announce);
    }

    // All of it interleaved

    /** One step of whoever's turn it is. */
    method Perform(e: P.Event)
      requires Valid() && P.Enabled(g, e)
      modifies this, dev, dev.info, dev.cqBuf
      ensures Valid() && g == P.Step(old(g), e)
    {
      NeverNull(e);
      hide P.Inv, D.Ring.Valid;
      match e {
        case Nic(n) => NicTurn(n);
        case Poll(p) => PollTurn(p);
        case NullPage => assert false;
        case NoSkb => var page := HandOff(false);
        case BeginRefill => var missing := BeginRefill();
        case Fill(alloc) => var ok := PrepareDesc(alloc);
        case FillDone => Follow(P.FillDone);
        case Announce => Announce();
      }
    }

    lemma NeverNull(e: P.Event)
      requires Valid() && P.Enabled(g, e)
      ensures !e.NullPage?
    {
      if e.NullPage? {
        P.CompletionKeeps(g, e);
      }
    }

    method NicTurn(n: R.Event)
      requires Valid() && P.Enabled(g, P.Nic(n))
      modifies this, dev, dev.cqBuf
      ensures Valid() && g == P.Step(old(g), P.Nic(n))
    {
      hide P.Inv, D.Ring.Valid;
      if n.Consume? {
        NicConsume();
      } else {
        NicComplete(n.descriptor);
      }
    }

    method PollTurn(p: R.Event)
      requires Valid() && P.Enabled(g, P.Poll(p))
      modifies this, dev, dev.info
      ensures Valid() && g == P.Step(old(g), P.Poll(p))
    {
      hide P.Inv, D.Ring.Valid, R.Slot;
      match p {
        case PollStart(budget) => ReadCqHead(budget);
        case PollHandle => var page := HandOff(true);
        case PollPublish => PublishCqTail();
        case PollReadTail => ReadTail();
        case PollScan => var advanced := Scan();
        case PollClean => var advanced := Scan();
      }
    }

    /**
     * The handler and the NIC taking turns step by step in any legal order: the pointers and
     * registers go through the states of the protocol's run.
     */
    method Play(events: seq<P.Event>)
      requires Valid() && P.Legal(g, events)
      modifies this, dev, dev.info, dev.cqBuf
      ensures Valid() && g == P.Run(old(g), events)
    {
      hide *;
      ghost var s := g;
      var n := 0;
      P.RunNone(s, events);
      while n < |events|
        invariant n <= |events| && Valid() && g == P.Run(s, events[..n])
      {
        P.LegalPrefix(s, events, n);
        Perform(events[n]);
        n := n + 1;
      }
      assert events[..n] == events;
    }

    // The two routines, each run without interruption

    /**
     * mqnic_refill_rx_buffers, given what the allocator would return call by call. It
     * fills the ring, or stops at the first failure, and announces what it posted.
     */
    method RefillBuffers(allocs: seq<P.Alloc>) returns (posted: nat)
      requires Valid() && g.ring.poll.Cleaned? && g.refill.Idle?
      requires |allocs| >= dev.size
      modifies this, dev, dev.info
      ensures Valid() && g.ring.poll.Idle? && g.refill.Idle?
      ensures var missing := dev.size - old(g.ring).Occupancy();
        && posted <= missing
        && (missing < 8 ==> posted == 0)
        && (missing >= 8 && posted < missing ==> !allocs[posted].Page?)
      ensures PostedFrom(old(g), allocs, posted)
      ensures g.ring.bell == g.ring.Head()
    {
      hide *;
      ghost var before := g;
      StateSound();
      var missing := BeginRefill();
      posted := 0;
      RefillBegun(before, allocs);
      if missing < 8 {
        return;
      }
      var ok := true;
      while missing > 0 && ok
        invariant InRefill(before, allocs, missing, posted, ok)
        invariant posted + missing == dev.size - before.ring.Occupancy()
        invariant !ok ==> missing > 0 && posted < |allocs| && !allocs[posted].Page?
        decreases missing, ok
      {
        RoomLeft(before, allocs, missing, posted);
        ok := FillNext(before, allocs, missing, posted);
        if ok {
          posted, missing := posted + 1, missing - 1;
        }
      }
      EndRefill(before, allocs, missing, posted, ok);
    }

    lemma StateSound()
      requires Valid()
      ensures P.Inv(g)
    {
    }

    lemma RefillBegun(before: P.State, allocs: seq<P.Alloc>)
      requires Valid() && before.ring.poll.Cleaned? && before.refill.Idle? && P.Inv(before) && |allocs| >= dev.size
      requires P.Enabled(before, P.BeginRefill) && g == P.Step(before, P.BeginRefill)
      ensures 0 <= dev.size - before.ring.Occupancy() <= |allocs|
      ensures if dev.size - before.ring.Occupancy() < 8
              then g.ring.poll.Idle? && g.refill.Idle? && g.ring.bell == g.ring.Head() && PostedFrom(before, allocs, 0)
              else InRefill(before, allocs, dev.size - before.ring.Occupancy(), 0, true)
    {
    }

    lemma RoomLeft(before: P.State, allocs: seq<P.Alloc>, missing: nat, posted: nat)
      requires InRefill(before, allocs, missing, posted, true)
      ensures posted + missing <= |allocs|
    {
    }

    method EndRefill(ghost before: P.State, ghost allocs: seq<P.Alloc>, ghost missing: nat, ghost posted: nat,
                     ghost ok: bool)
      requires InRefill(before, allocs, missing, posted, ok) && (ok ==> missing == 0)
      modifies this, dev
      ensures Valid() && g.ring.poll.Idle? && g.refill.Idle? && g.ring.bell == g.ring.Head()
      ensures posted <= |allocs| && PostedFrom(before, allocs, posted)
    {
      Announce();
    }

    /** The pages of the first n allocations were posted in order, and nothing else happened to the ring. */
    ghost predicate PostedFrom(before: P.State, allocs: seq<P.Alloc>, n: nat)
      requires n <= |allocs|
      reads this
    {
      && |g.ring.posted| == |before.ring.posted| + n && before.ring.posted <= g.ring.posted
      && (forall k :: 0 <= k < n ==> allocs[k].Page? && g.ring.posted[|before.ring.posted| + k] == allocs[k].page)
      && g.ring == before.ring.(posted := g.ring.posted, slots := g.ring.slots,
                                bell := g.ring.bell, poll := g.ring.poll)
    }

    ghost predicate InRefill(before: P.State, allocs: seq<P.Alloc>, missing: nat, posted: nat, ok: bool)
      reads this, dev, dev.info, dev.cqBuf
    {
      && Valid() && g.ring.poll.Cleaned?
      && missing + posted == dev.size - before.ring.Occupancy() <= |allocs|
      && g.refill == (if ok then P.Filling(missing) else P.Announcing)
      && PostedFrom(before, allocs, posted)
    }

    method FillNext(ghost before: P.State, allocs: seq<P.Alloc>, ghost missing: nat, posted: nat) returns (ok: bool)
      requires missing > 0 && InRefill(before, allocs, missing, posted, true)
      modifies this, dev, dev.info
      ensures ok == allocs[posted].Page?
      ensures if ok then InRefill(before, allocs, missing - 1, posted + 1, true)
              else InRefill(before, allocs, missing, posted, false)
    {
      ok := PrepareDesc(allocs[posted]);
    }

    /** The completion loop of mqnic_process_rx_cq; skbs is how many socket buffers can be had. */
    method HandleCompletions(budget: nat, skbs: nat) returns (done: nat)
      requires Valid() && g.ring.poll.Idle?
      modifies this, dev, dev.info
      ensures Valid()
      ensures g == old(g).(ring := old(g.ring).(cqHead := g.ring.cqHead, cqRead := g.ring.cqRead,
                                                cqTail := g.ring.cqTail, slots := g.ring.slots,
                                                released := g.ring.released, poll := R.Published))
      ensures done == Min(skbs, Min(budget, |g.ring.completed| - old(g.ring.cqTail)))
      ensures g.ring.cqTail == old(g.ring.cqTail) + done
    {
      hide *;
      ghost var before := g;
      var more := BeginCompletions(budget);
      done := 0;
      var skb := true;
      while more && done < budget && skb
        invariant InLoop(before, budget, done, skb, more)
        invariant done <= budget && done <= skbs && (!skb ==> done == skbs && more && done < budget)
        decreases budget - done, skb
      {
        skb := done < skbs;
        more := HandleNext(before, budget, done, skb);
        if skb {
          done := done + 1;
        }
      }
      EndCompletions(before, budget, done, skb, more);
      HandledCount(before, budget, done, skbs, skb, more);
    }

    method BeginCompletions(budget: nat) returns (more: bool)
      requires Valid() && g.ring.poll.Idle?
      modifies this, dev
      ensures InLoop(old(g), budget, 0, true, more)
    {
      ReadCqHead(budget);
      more := dev.MoreCompletions();
    }

    method EndCompletions(ghost before: P.State, ghost budget: nat, ghost done: nat, ghost skb: bool, ghost more: bool)
      requires InLoop(before, budget, done, skb, more) && !(more && done < budget && skb)
      modifies this, dev
      ensures Valid() && g.ring.cqTail == before.ring.cqTail + done
      ensures before.ring.cqTail + done <= |before.ring.completed|
      ensures more == (before.ring.cqTail + done < |before.ring.completed|)
      ensures g == before.(ring := before.ring.(cqHead := g.ring.cqHead, cqRead := g.ring.cqRead,
                                                cqTail := g.ring.cqTail, slots := g.ring.slots,
                                                released := g.ring.released, poll := R.Published))
    {
      PublishCqTail();
    }

    lemma HandledCount(before: P.State, budget: nat, done: nat, skbs: nat, skb: bool, more: bool)
      requires before.ring.cqTail + done <= |before.ring.completed| && done <= budget && done <= skbs
      requires more == (before.ring.cqTail + done < |before.ring.completed|)
      requires !(more && done < budget && skb) && (!skb ==> done == skbs)
      ensures done == Min(skbs, Min(budget, |before.ring.completed| - before.ring.cqTail))
    {
    }

    ghost predicate InLoop(before: P.State, budget: nat, done: nat, skb: bool, more: bool)
      reads this, dev, dev.info, dev.cqBuf
    {
      && Valid() && done <= budget
      && g == before.(ring := before.ring.(cqHead := |before.ring.completed|, cqRead := g.ring.cqRead,
                                           slots := g.ring.slots, released := g.ring.released, poll := g.ring.poll))
      && g.ring.poll == R.Reading(if skb then budget - done else 0)
      && g.ring.cqRead == before.ring.cqTail + done <= |before.ring.completed|
      && more == (g.ring.cqRead < |before.ring.completed|)
    }

    method HandleNext(ghost before: P.State, ghost budget: nat, ghost done: nat, skb: bool) returns (more: bool)
      requires InLoop(before, budget, done, true, true) && done < budget
      modifies this, dev, dev.info
      ensures InLoop(before, budget, if skb then done + 1 else done, skb, more) && (!skb ==> more)
    {
      var page := HandOff(skb);
      more := dev.MoreCompletions();
    }

    lemma RingSound()
      requires Valid()
      ensures R.Inv(g.ring) && g.ring.mapped == None && g.ring.size == dev.size && |g.ring.slots| == dev.size > 0
      ensures 0 <= g.ring.Occupancy() <= dev.size
    {
    }

    /** What a refill after a reclaim leaves. */
    lemma Replenished(reclaimed: P.State, allocs: seq<P.Alloc>, n: nat)
      requires Valid() && R.Inv(reclaimed.ring) && reclaimed.ring.mapped == None
      requires n <= |allocs| && dev.size <= |allocs|
      requires reclaimed.ring.clean == reclaimed.ring.nicTail
        || reclaimed.ring.slots[R.Slot(reclaimed.ring.clean, reclaimed.ring.size)].Some?
      requires PostedFrom(reclaimed, allocs, n)
      requires var missing := dev.size - reclaimed.ring.Occupancy();
        n <= missing && (missing >= 8 && n < missing ==> !allocs[n].Page?)
      ensures g.ring == reclaimed.ring.(posted := g.ring.posted, slots := g.ring.slots,
                                        bell := g.ring.bell, poll := g.ring.poll)
      ensures g.ring.clean == g.ring.nicTail || g.ring.slots[R.Slot(g.ring.clean, dev.size)].Some?
      ensures reclaimed.ring.posted <= g.ring.posted && n == |g.ring.posted| - |reclaimed.ring.posted| <= dev.size
      ensures forall k :: 0 <= k < n ==>
                allocs[k].Page? && g.ring.posted[|reclaimed.ring.posted| + k] == allocs[k].page
      ensures g.ring.Occupancy() > dev.size - 8 || (n < dev.size && !allocs[n].Page?)
    {
      RingSound();
      hide Valid, R.Inv, R.Slot;
      R.StillHeld(reclaimed.ring, g.ring);
      OccupancyOf(reclaimed.ring);
    }

    lemma OccupancyOf(r: R.Ring)
      requires R.Inv(r)
      ensures 0 <= r.Occupancy() <= r.size
    {
    }

    /**
     * mqnic_process_rx_cq. It posts the pages allocated, in order and all announced, and
     * stops short of seven slots left only when an allocation fails.
     */
    method ProcessRxCq(budget: nat, skbs: nat, allocs: seq<P.Alloc>) returns (done: nat)
      requires Valid() && g.ring.poll.Idle? && g.refill.Idle? && |allocs| >= dev.size
      modifies this, dev, dev.info
      ensures Valid() && g.ring.poll.Idle? && g.refill.Idle?
      ensures done == Min(skbs, Min(budget, |g.ring.completed| - old(g.ring.cqTail)))
      ensures g.ring.cqTail == old(g.ring.cqTail) + done && g.ring.tail == g.ring.nicTail == old(g.ring.nicTail)
      ensures g.ring.completed == old(g.ring.completed) && old(g.ring.posted) <= g.ring.posted
      ensures g.ring.bell == g.ring.Head()
      ensures g.ring.clean == g.ring.nicTail || g.ring.slots[R.Slot(g.ring.clean, dev.size)].Some?
      ensures var n := |g.ring.posted| - |old(g.ring.posted)|;
        && n <= dev.size
        && (forall k :: 0 <= k < n ==> allocs[k].Page? && g.ring.posted[|old(g.ring.posted)| + k] == allocs[k].page)
        && (g.ring.Occupancy() > dev.size - 8 || (n < dev.size && !allocs[n].Page?))
    {
      hide *;
      ghost var before := g;
      done := HandleCompletions(budget, skbs);
      ReclaimSlots();
      ghost var reclaimed := g;
      RingSound();
      var posted := RefillBuffers(allocs);
      RingSound();
      Replenished(reclaimed, allocs, posted);
      assert before.ring.posted == reclaimed.ring.posted;
    }
  }
}
