/**
 * The receive queue as its 16-bit registers show it: which ring sizes they suffice for,
 * and what becomes of the one size for which they do not.
 */
module RxRegisters {
  import opened Modular
  import P = RxProtocol
  import R = DescriptorRing

  const Largest := U16 / 2

  /** The counter that the driver takes a 16-bit register for, knowing an earlier value. */
  function Recovered(known: nat, actual: nat): (r: nat)
    ensures known <= actual < known + U16 ==> r == actual
    ensures actual == known + U16 ==> r == known
  {
    known + (actual - known) % U16
  }

  /** That is what the driver's arithmetic on a 32-bit pointer and the register yields. */
  lemma RecoveredInRegisters(known: nat, actual: nat)
    ensures Recover(known % U32, actual % U16) == Recovered(known, actual) % U32
  {
    ResidueOfDifference(known, actual);
    ResidueOfSum(known, (actual - known) % U16);
  }

  /** The NIC's two pointers differ, so it takes a descriptor to be posted. */
  predicate WorkSeen(r: R.Ring) {
    r.nicTail % U16 != r.bell % U16
  }

  ghost predicate Enabled(s: P.State, e: P.Event)
  {
    P.Enabled(s, e) && (e == P.Nic(R.Consume) ==> WorkSeen(s.ring))
  }

  /** A step in which counters cross between driver and NIC through registers. */
  ghost function Step(s: P.State, e: P.Event): P.State
    requires Enabled(s, e)
  {
    var next := P.Step(s, e);
    if e == P.Poll(R.PollReadTail) then
      next.(ring := next.ring.(tail := Recovered(s.ring.tail, s.ring.nicTail)))
    else if e.Poll? && e.step.PollStart? then
      next.(ring := next.ring.(cqHead := Recovered(s.ring.cqHead, |s.ring.completed|)))
    else next
  }

  ghost function Run(s: P.State, es: seq<P.Event>): P.State
  {
    if es == [] then s
    else
      var p := Run(s, es[..|es| - 1]);
      if Enabled(p, es[|es| - 1]) then Step(p, es[|es| - 1]) else p
  }

  // Where registers suffice

  /** Each counter is within 2^16 of the one it is compared with. */
  predicate Shown(r: R.Ring) {
    && r.tail <= r.nicTail < r.tail + U16
    && r.cqHead <= |r.completed| < r.cqHead + U16
    && r.nicTail <= r.bell < r.nicTail + U16
  }

  /** Then what the registers show is the truth. */
  lemma ShownAsIs(s: P.State, e: P.Event)
    requires Shown(s.ring)
    ensures P.Enabled(s, e) <==> Enabled(s, e)
    ensures P.Enabled(s, e) ==> Step(s, e) == P.Step(s, e)
  {
    Equal16(s.ring.bell, s.ring.nicTail);
    hide R.Slot, Recovered;
  }

  lemma SmallRingShown(s: P.State)
    requires P.Inv(s) && s.ring.size < U16
    ensures Shown(s.ring)
  {
    R.CompletionQueueFits(s.ring);
  }

  lemma {:induction false} RegistersSuffice(size: nat, es: seq<P.Event>)
    requires 0 < size < U16
    ensures Run(P.Initial(size), es) == P.Run(P.Initial(size), es)
  {
    if es != [] {
      var p := P.Reached(size, es[..|es| - 1]);
      RegistersSuffice(size, es[..|es| - 1]);
      SmallRingShown(p);
      hide P.Inv, P.Enabled, P.Step, Enabled, Step, Shown;
      ShownAsIs(p, es[|es| - 1]);
    }
  }

  // A ring of 2^16

  /** The events of es lead the ring of 2^16 from activation to t. */
  ghost predicate Leads(es: seq<P.Event>, t: P.State)
  {
    Run(P.Initial(U16), es) == t
  }

  lemma Advance(es: seq<P.Event>, s: P.State, e: P.Event) returns (es': seq<P.Event>, t: P.State)
    requires Leads(es, s) && P.Inv(s) && Shown(s.ring) && P.Enabled(s, e)
    ensures Leads(es', t) && P.Inv(t) && t == P.Step(s, e)
  {
    hide P.Enabled, P.Step, Enabled, Step, Shown;
    ShownAsIs(s, e);
    assert (es + [e])[..|es|] == es;
    es', t := es + [e], P.Step(s, e);
    P.StepKeeps(s, e);
  }

  /** n pages are allocated and posted. */
  lemma {:induction false} FillMany(es: seq<P.Event>, s: P.State, n: nat) returns (es': seq<P.Event>, t: P.State)
    requires Leads(es, s) && P.Inv(s) && s.refill.Filling? && n <= s.refill.missing
    requires Shown(s.ring)
    ensures Leads(es', t) && P.Inv(t)
    ensures t.refill == P.Filling(s.refill.missing - n) && t.ring.Head() == s.ring.Head() + n
    ensures t.ring == s.ring.(slots := t.ring.slots, posted := t.ring.posted)
    decreases n
  {
    es', t := es, s;
    if n > 0 {
      es', t := FillOne(es, s);
      hide Leads, Enabled, Step, P.Inv;
      es', t := FillMany(es', t, n - 1);
    }
  }

  lemma FillOne(es: seq<P.Event>, s: P.State) returns (es': seq<P.Event>, t: P.State)
    requires Leads(es, s) && P.Inv(s) && s.refill.Filling? && s.refill.missing > 0 && Shown(s.ring)
    ensures Leads(es', t) && P.Inv(t)
    ensures t.refill == P.Filling(s.refill.missing - 1) && t.ring.Head() == s.ring.Head() + 1
    ensures t.ring == s.ring.(slots := t.ring.slots, posted := t.ring.posted)
  {
    var fill := P.Fill(P.Page(0));
    assert s.ring.poll.Cleaned? && |s.ring.slots| == s.ring.size > 0;
    P.FillKeeps(s, fill.alloc);
    hide Leads, Enabled, Step, P.Inv, R.Slot;
    es', t := Advance(es, s, fill);
  }

  /** The NIC consumes n descriptors. */
  lemma {:induction false} ConsumeMany(es: seq<P.Event>, s: P.State, n: nat) returns (es': seq<P.Event>, t: P.State)
    requires Leads(es, s) && P.Inv(s) && s.ring.nicTail + n <= s.ring.bell && (n > 0 ==> Shown(s.ring))
    requires s.ring.nicTail + n <= s.ring.tail + U16
    ensures Leads(es', t) && P.Inv(t) && t == s.(ring := s.ring.(nicTail := s.ring.nicTail + n))
    decreases n
  {
    es', t := es, s;
    if n > 0 {
      FilledSlots(s);
      hide Leads, Enabled, Step, P.Inv;
      es', t := Advance(es, s, P.Nic(R.Consume));
      es', t := ConsumeMany(es', t, n - 1);
    }
  }

  lemma FillBegins(s: P.State)
    requires P.Inv(s) && s.ring.poll.Cleaned? && s.refill.Idle? && s.ring.size - s.ring.Occupancy() >= 8
    ensures P.Enabled(s, P.BeginRefill)
    ensures P.Step(s, P.BeginRefill) == s.(refill := P.Filling(s.ring.size - s.ring.Occupancy()))
  {
  }

  lemma BeginFill(es: seq<P.Event>, s: P.State) returns (es': seq<P.Event>, t: P.State)
    requires Leads(es, s) && P.Inv(s) && s.ring.poll.Cleaned? && s.refill.Idle? && Shown(s.ring)
    requires s.ring.size - s.ring.Occupancy() >= 8
    ensures Leads(es', t) && P.Inv(t) && t == s.(refill := P.Filling(s.ring.size - s.ring.Occupancy()))
  {
    hide *;
    FillBegins(s);
    es', t := Advance(es, s, P.BeginRefill);
  }

  /** The refill ends, whether because it is done or because an allocation fails. */
  lemma EndFill(es: seq<P.Event>, s: P.State) returns (es': seq<P.Event>, t: P.State)
    requires Leads(es, s) && P.Inv(s) && s.refill.Filling? && Shown(s.ring)
    ensures Leads(es', t) && P.Inv(t) && t == s.(refill := P.Announcing) && t.ring.poll.Cleaned?
  {
    FilledSlots(s);
    assert s.ring.poll.Cleaned?;
    if s.refill.missing > 0 {
      P.FillKeeps(s, P.NoPage);
    }
    hide Leads, P.Inv, R.Slot, Shown;
    es', t := Advance(es, s, if s.refill.missing > 0 then P.Fill(P.NoPage) else P.FillDone);
  }

  lemma AnnounceAll(es: seq<P.Event>, s: P.State) returns (es': seq<P.Event>, t: P.State)
    requires Leads(es, s) && P.Inv(s) && s.refill.Announcing? && s.ring.poll.Cleaned? && Shown(s.ring)
    ensures Leads(es', t) && P.Inv(t) && t == s.(ring := t.ring, refill := P.Idle)
    ensures t.ring == s.ring.(bell := s.ring.Head(), poll := R.Idle)
  {
    FilledSlots(s);
    hide Leads, P.Inv, R.Slot, Shown;
    es', t := Advance(es, s, P.Announce);
  }

  /** A refill that gets n pages. */
  lemma Refill(es: seq<P.Event>, s: P.State, n: nat) returns (es': seq<P.Event>, t: P.State)
    requires Leads(es, s) && P.Inv(s) && s.ring.poll.Cleaned? && s.refill.Idle? && Shown(s.ring)
    requires s.ring.size - s.ring.Occupancy() >= 8 && s.ring.size - s.ring.Occupancy() >= n
    ensures Leads(es', t) && P.Inv(t) && t.ring.poll.Idle? && t.refill.Idle?
    ensures t.ring == s.ring.(slots := t.ring.slots, posted := t.ring.posted, bell := |t.ring.posted|, poll := R.Idle)
    ensures |t.ring.posted| == |s.ring.posted| + n
  {
    hide Leads, P.Inv;
    es', t := BeginFill(es, s);
    es', t := FillMany(es', t, n);
    es', t := EndFill(es', t);
    es', t := AnnounceAll(es', t);
  }

  lemma HandleNone(es: seq<P.Event>, s: P.State) returns (es': seq<P.Event>, t: P.State)
    requires Leads(es, s) && P.Inv(s) && s.ring.poll.Idle? && s.ring.completed == [] && Shown(s.ring)
    ensures Leads(es', t) && P.Inv(t) && t == s.(ring := s.ring.(poll := R.Published))
  {
    FilledSlots(s);
    assert s.ring.cqTail == s.ring.cqRead == s.ring.cqHead == 0;
    hide Leads, P.Inv, R.Slot;
    es', t := Advance(es, s, P.Poll(R.PollStart(0)));
    assert t == s.(ring := s.ring.(poll := R.Reading(0)));
    es', t := Advance(es', t, P.Poll(R.PollPublish));
  }

  lemma ReclaimNone(es: seq<P.Event>, s: P.State) returns (es': seq<P.Event>, t: P.State)
    requires Leads(es, s) && P.Inv(s) && s.ring.poll.Published? && s.ring.nicTail == 0 && Shown(s.ring)
    ensures Leads(es', t) && P.Inv(t) && t == s.(ring := s.ring.(poll := R.Cleaned))
  {
    FilledSlots(s);
    assert s.ring.clean == s.ring.tail == 0;
    hide Leads, P.Inv, R.Slot;
    es', t := Advance(es, s, P.Poll(R.PollReadTail));
    assert t == s.(ring := s.ring.(poll := R.Scanning(0)));
    es', t := Advance(es', t, P.Poll(R.PollClean));
  }

  /** A ring of 2^16 at rest, or about to refill, with so many pages posted and consumed and none completed. */
  ghost predicate Stage(s: P.State, refilling: bool, filled: nat, taken: nat)
  {
    var r := s.ring;
    && P.Inv(s) && r.size == U16 && s.refill.Idle? && r.completed == []
    && r.clean == r.tail == r.cqHead == 0 && r.nicTail == taken && r.bell == |r.posted| == filled
    && if refilling then r.poll.Cleaned? else r.poll.Idle?
  }

  lemma Activated() returns (t: P.State)
    ensures Leads([], t) && Stage(t, true, 0, 0)
  {
    t := P.Initial(U16);
    P.InitialInv(U16);
    hide P.Inv;
  }

  lemma RefillStage(es: seq<P.Event>, s: P.State, filled: nat, taken: nat, n: nat)
    returns (es': seq<P.Event>, t: P.State)
    requires Leads(es, s) && Stage(s, true, filled, taken) && taken <= filled < taken + U16 && taken < U16
    requires filled + 8 <= U16 && filled + n <= U16
    ensures Leads(es', t) && Stage(t, false, filled + n, taken)
  {
    hide Leads, P.Inv;
    es', t := Refill(es, s, n);
  }

  lemma PollStage(es: seq<P.Event>, s: P.State, filled: nat) returns (es': seq<P.Event>, t: P.State)
    requires Leads(es, s) && Stage(s, false, filled, 0) && filled < U16
    ensures Leads(es', t) && Stage(t, true, filled, 0)
  {
    hide Leads, P.Inv;
    es', t := HandleNone(es, s);
    es', t := ReclaimNone(es', t);
  }

  lemma ConsumeStage(es: seq<P.Event>, s: P.State, refilling: bool, filled: nat, taken: nat, n: nat)
    returns (es': seq<P.Event>, t: P.State)
    requires Leads(es, s) && Stage(s, refilling, filled, taken)
    requires taken + n <= filled <= U16 && filled < taken + U16
    ensures Leads(es', t) && Stage(t, refilling, filled, taken + n)
  {
    hide Leads, P.Inv;
    es', t := ConsumeMany(es, s, n);
  }

  lemma FilledSlots(s: P.State)
    requires P.Inv(s)
    ensures |s.ring.slots| == s.ring.size > 0
  {
  }

  /**
   * The whole ring is consumed and the driver still knows of nothing consumed: reading
   * the register tells it of no progress, and it has no slot to refill.
   */
  ghost predicate Stuck(s: P.State)
  {
    var r := s.ring;
    && r.size == |r.slots| == U16 && s.refill.Idle?
    && r.clean == r.tail && r.nicTail == r.bell == r.Head() == r.tail + U16
    && (r.poll.Scanning? ==> r.poll.at == r.clean)
  }

  lemma StuckWhen(s: P.State)
    requires Stage(s, false, U16, U16)
    ensures P.Inv(s) && Stuck(s) && s.ring.poll.Idle?
  {
    FilledSlots(s);
    hide P.Inv;
  }

  /**
   * A ring of 2^16 gets there, though the NIC's own registers never hide work from it: the
   * first fill falls short of the whole ring, and the NIC consumes the rest between two polls.
   */
  lemma StuckReached() returns (es: seq<P.Event>, t: P.State)
    ensures Leads(es, t) && P.Inv(t) && Stuck(t) && t.ring.poll.Idle?
  {
    assert U16 == 0x1_0000;
    hide *;
    t := Activated();
    es, t := RefillStage([], t, 0, 0, U16 - 8);
    es, t := PollStage(es, t, U16 - 8);
    es, t := ConsumeStage(es, t, true, U16 - 8, 0, 8);
    es, t := RefillStage(es, t, U16 - 8, 8, 8);
    es, t := ConsumeStage(es, t, false, U16, 8, U16 - 8);
    StuckWhen(t);
  }

  lemma StuckStays(s: P.State, e: P.Event)
    requires Stuck(s) && Enabled(s, e)
    ensures Stuck(Step(s, e))
    ensures Step(s, e).ring.posted == s.ring.posted && Step(s, e).ring.clean == s.ring.clean
  {
    hide R.Slot;
  }

  /** Whatever happens then, nothing is ever reclaimed and no page ever posted again. */
  lemma {:induction false} StuckForever(s: P.State, es: seq<P.Event>)
    requires Stuck(s)
    ensures Stuck(Run(s, es))
    ensures Run(s, es).ring.posted == s.ring.posted && Run(s, es).ring.clean == s.ring.clean
  {
    if es != [] {
      var front := es[..|es| - 1];
      StuckForever(s, front);
      hide Stuck, Enabled, Step;
      if Enabled(Run(s, front), es[|es| - 1]) {
        StuckStays(Run(s, front), es[|es| - 1]);
      }
    }
  }

  /** So a ring of 2^16, though every page of it has been consumed, may never be refilled. */
  lemma LargestRingJams() returns (es: seq<P.Event>)
    ensures var r := Run(P.Initial(U16), es).ring;
      && r.clean + U16 == r.nicTail == r.Head()
      && forall more :: var later := Run(Run(P.Initial(U16), es), more).ring;
                        later.posted == r.posted && later.clean == r.clean
  {
    var s;
    es, s := StuckReached();
    forall more
      ensures Run(s, more).ring.posted == s.ring.posted && Run(s, more).ring.clean == s.ring.clean
    {
      StuckForever(s, more);
    }
  }

  /**
   * The first fill got every page: the head register reads as it did before, so the NIC sees
   * nothing to consume, and the driver nothing consumed.
   */
  ghost predicate Starved(s: P.State)
  {
    var r := s.ring;
    && r.size == |r.slots| == U16 && s.refill.Idle?
    && r.clean == r.tail == r.nicTail == 0 && r.bell == r.Head() == U16
    && r.completed == [] && r.cqHead == r.cqRead == 0
    && (r.poll.Scanning? ==> r.poll.at == 0)
  }

  lemma StarvedStays(s: P.State, e: P.Event)
    requires Starved(s) && Enabled(s, e)
    ensures Starved(Step(s, e)) && Step(s, e).ring.posted == s.ring.posted
  {
    hide R.Slot;
  }

  /** Then no page is ever consumed, and none posted. */
  lemma {:induction false} StarvedForever(s: P.State, es: seq<P.Event>)
    requires Starved(s)
    ensures Starved(Run(s, es)) && Run(s, es).ring.posted == s.ring.posted
  {
    if es != [] {
      var front := es[..|es| - 1];
      StarvedForever(s, front);
      hide Starved, Enabled, Step;
      if Enabled(Run(s, front), es[|es| - 1]) {
        StarvedStays(Run(s, front), es[|es| - 1]);
      }
    }
  }

  lemma StarvedWhen(s: P.State)
    requires Stage(s, false, U16, 0)
    ensures Starved(s)
  {
    FilledSlots(s);
  }

  /** It is what a ring of 2^16 comes to when no allocation fails: it never receives anything. */
  lemma FullRingStarves() returns (es: seq<P.Event>)
    ensures var r := Run(P.Initial(U16), es).ring;
      && r.bell == r.Head() == U16
      && forall more :: var later := Run(Run(P.Initial(U16), es), more).ring;
                        later.nicTail == 0 && later.completed == [] && later.posted == r.posted
  {
    var s;
    es, s := StarvedReached();
    forall more
      ensures Starved(Run(s, more)) && Run(s, more).ring.posted == s.ring.posted
    {
      StarvedForever(s, more);
    }
  }

  lemma StarvedReached() returns (es: seq<P.Event>, t: P.State)
    ensures Leads(es, t) && Starved(t)
  {
    assert U16 == 0x1_0000;
    hide *;
    t := Activated();
    es, t := RefillStage([], t, 0, 0, U16);
    StarvedWhen(t);
  }

  // The sizes

  /** The driver, were it to read the NIC's tail now, would read it right. */
  ghost predicate TailShown(r: R.Ring)
  {
    Recover(r.tail % U32, r.nicTail % U16) == r.nicTail % U32
  }

  lemma TailOutOfSight(s: P.State)
    requires Stuck(s)
    ensures !TailShown(s.ring)
  {
    RecoverAliases(s.ring.tail);
    Equal32(s.ring.nicTail, s.ring.tail);
  }

  lemma TailInSight(s: P.State)
    requires P.Inv(s) && s.ring.size < U16
    ensures TailShown(s.ring)
  {
    RecoverExact(s.ring.tail, s.ring.nicTail);
  }

  lemma HalfOrAll(size: nat)
    requires RingSize(size)
    ensures 0 < size <= U16 && (size <= Largest <==> size < U16)
  {
    var k: nat :| Turns(size, k);
    if k >= 2 {
      assert size * k == size * 2 + size * (k - 2);
      assert size * (k - 2) >= 0;
    }
  }

  /** The driver reads the NIC's tail right in every state of every run exactly up to 2^15 slots. */
  lemma TailAlwaysShown(size: nat)
    requires RingSize(size)
    ensures (forall es :: TailShown(Run(P.Initial(size), es).ring)) <==> size <= Largest
  {
    HalfOrAll(size);
    hide TailShown;
    if size < U16 {
      forall es
        ensures TailShown(Run(P.Initial(size), es).ring)
      {
        RegistersSuffice(size, es);
        var s := P.Reached(size, es);
        TailInSight(s);
      }
    } else {
      assert size == U16;
      var es, s := StuckReached();
      TailOutOfSight(s);
      assert !TailShown(Run(P.Initial(size), es).ring);
    }
  }

  /** The queue behaves through its registers as it does on true counters exactly up to 2^15 slots. */
  lemma RegistersSufficeWhen(size: nat)
    requires RingSize(size)
    ensures (forall es :: Run(P.Initial(size), es) == P.Run(P.Initial(size), es)) <==> size <= Largest
  {
    HalfOrAll(size);
    if size < U16 {
      forall es
        ensures Run(P.Initial(size), es) == P.Run(P.Initial(size), es)
      {
        RegistersSuffice(size, es);
      }
    } else {
      assert size == U16;
      var es := WentApart();
      assert Run(P.Initial(size), es) != P.Run(P.Initial(size), es);
    }
  }

  /** The next poll of a stuck ring is where the two go apart. */
  lemma WentApart() returns (es: seq<P.Event>)
    ensures Run(P.Initial(U16), es) != P.Run(P.Initial(U16), es)
  {
    var s, t;
    es, s := StuckReached();
    es, t := PollToRead(es, s);
    var read := P.Poll(R.PollReadTail);
    assert (es + [read])[..|es|] == es;
    if P.Run(P.Initial(U16), es) == t {
      assert Run(P.Initial(U16), es + [read]).ring.tail == t.ring.tail;
      assert P.Run(P.Initial(U16), es + [read]).ring.tail == t.ring.nicTail;
      es := es + [read];
    }
  }

  lemma PollToRead(es: seq<P.Event>, s: P.State) returns (es': seq<P.Event>, t: P.State)
    requires Leads(es, s) && P.Inv(s) && Stuck(s) && s.ring.poll.Idle?
    ensures Leads(es', t) && Stuck(t) && t.ring.poll.Published?
  {
    hide Leads, P.Inv, R.Slot;
    es', t := StuckAdvance(es, s, P.Poll(R.PollStart(0)));
    es', t := StuckAdvance(es', t, P.Poll(R.PollPublish));
  }

  lemma StuckAdvance(es: seq<P.Event>, s: P.State, e: P.Event) returns (es': seq<P.Event>, t: P.State)
    requires Leads(es, s) && Stuck(s) && Enabled(s, e)
    ensures Leads(es', t) && Stuck(t) && t == Step(s, e)
  {
    assert (es + [e])[..|es|] == es;
    es', t := es + [e], Step(s, e);
    StuckStays(s, e);
  }
}
