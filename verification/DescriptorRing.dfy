/**
 * The protocol shared by transmit and receive rings, as a state machine over unbounded
 * counters. Three agents interleave step by step:
 *
 *   the producer fills the slot at head, advances head and rings the doorbell;
 *   the NIC consumes posted descriptors in order and completes them in any order;
 *   the NAPI handler reads completions, empties slots, and advances clean lazily.
 *
 * A descriptor is named by the value head had when it was posted.
 */
module DescriptorRing {
  import opened Wrappers
  import opened Modular

  /** The identity of a socket buffer or of a receive page. */
  type Buffer = nat

  /** Where the NAPI handler stands between two shared accesses. */
  datatype Poll =
    | Idle
    | Reading(left: nat)   // in the completion loop, with this much budget left
    | Published            // completion-queue tail written back
    | Scanning(at: nat)    // in the clean scan, at a local clean pointer
    | Cleaned              // clean pointer written back

  datatype Ring = Ring(
    size: nat,
    slots: seq<Option<Buffer>>,
    mapped: Option<Buffer>,      // buffer in the slot at head, not yet counted by head
    posted: seq<Buffer>,         // posted[i] was posted as descriptor i
    bell: nat,                   // head as last written to the NIC
    nicTail: nat,                // descriptors consumed by the NIC
    completed: seq<nat>,         // descriptors in the order their completions were written
    cqHead: nat,                 // completions the driver knows of
    cqRead: nat,                 // completions the driver has handled
    cqTail: nat,                 // completions the driver has returned to the NIC
    tail: nat,                   // nicTail as last read by the driver
    clean: nat,                  // first descriptor not yet reclaimed
    released: seq<Option<Buffer>>, // what each handled completion took out of its slot
    poll: Poll
  ) {
    function Head(): nat {
      |posted|
    }

    function Occupancy(): int {
      Head() - clean
    }

    /** Completion of descriptor i has been handled. */
    ghost predicate Handled(i: nat)
      requires cqRead <= |completed|
    {
      i in completed[..cqRead]
    }
  }

  function Slot(i: nat, size: nat): (s: nat)
    requires size > 0
    ensures s < size
  {
    i % size
  }

  datatype Event =
    | Map(buffer: Buffer)
    | Unmap
    | Push
    | Doorbell
    | Consume
    | Complete(descriptor: nat)
    | PollStart(budget: nat)
    | PollHandle
    | PollGiveUp
    | PollPublish
    | PollReadTail
    | PollScan
    | PollClean
    | PollEnd

  function Empty(size: nat): Ring {
    Ring(size, seq(size, _ => None), None, [], 0, 0, [], 0, 0, 0, 0, 0, [], Idle)
  }

  ghost predicate Enabled(r: Ring, e: Event)
  {
    && r.size > 0
    && |r.slots| == r.size
    && match e
       case Map(_) => r.mapped == None && r.Occupancy() < r.size
       case Unmap => r.mapped.Some?
       case Push => r.mapped.Some?
       case Doorbell => true
       case Consume => r.nicTail < r.bell
       case Complete(i) => i < r.nicTail && i !in r.completed
       case PollStart(_) => r.poll.Idle?
       case PollHandle => r.poll.Reading? && r.poll.left > 0 && r.cqRead < r.cqHead <= |r.completed|
       case PollGiveUp => r.poll.Reading?
       case PollPublish => r.poll.Reading?
       case PollReadTail => r.poll.Published?
       case PollScan => r.poll.Scanning? && r.poll.at != r.tail && r.slots[Slot(r.poll.at, r.size)].None?
       case PollClean =>
         r.poll.Scanning? && (r.poll.at == r.tail || r.slots[Slot(r.poll.at, r.size)].Some?)
       case PollEnd => r.poll.Cleaned?
  }

  ghost function Step(r: Ring, e: Event): Ring
    requires Enabled(r, e)
  {
    match e
    case Map(b) => r.(slots := r.slots[Slot(r.Head(), r.size) := Some(b)], mapped := Some(b))
    case Unmap => r.(slots := r.slots[Slot(r.Head(), r.size) := None], mapped := None)
    case Push => r.(posted := r.posted + [r.mapped.value], mapped := None)
    case Doorbell => r.(bell := r.Head())
    case Consume => r.(nicTail := r.nicTail + 1)
    case Complete(i) => r.(completed := r.completed + [i])
    case PollStart(budget) => r.(cqHead := |r.completed|, poll := Reading(budget))
    case PollHandle =>
      var s := Slot(r.completed[r.cqRead], r.size);
      r.(released := r.released + [r.slots[s]], slots := r.slots[s := None],
         cqRead := r.cqRead + 1, poll := Reading(r.poll.left - 1))
    case PollGiveUp => r.(poll := Reading(0))
    case PollPublish => r.(cqTail := r.cqRead, poll := Published)
    case PollReadTail => r.(tail := r.nicTail, poll := Scanning(r.clean))
    case PollScan => r.(poll := Scanning(r.poll.at + 1))
    case PollClean => r.(clean := r.poll.at, poll := Cleaned)
    case PollEnd => r.(poll := Idle)
  }

  // The invariant

  ghost predicate Distinct(s: seq<nat>)
  {
    forall j, k :: 0 <= j < k < |s| ==> s[j] != s[k]
  }

  ghost predicate CountersOrdered(r: Ring)
  {
    && r.clean <= r.tail <= r.nicTail <= r.bell <= r.Head() <= r.clean + r.size
    && (r.mapped.Some? ==> r.Occupancy() < r.size)
    && (r.poll.Scanning? ==> r.clean <= r.poll.at <= r.tail)
    && r.cqTail <= r.cqRead <= r.cqHead <= |r.completed|
    && (!r.poll.Reading? ==> r.cqTail == r.cqRead)
  }

  ghost predicate CompletionsSound(r: Ring)
    requires CountersOrdered(r)
  {
    && Distinct(r.completed)
    && (forall k :: 0 <= k < |r.completed| ==> r.completed[k] < r.nicTail)
    && (forall i: nat :: i < r.clean ==> i in r.completed[..r.cqTail])
    && (r.poll.Scanning? ==> forall i: nat :: i < r.poll.at ==> i in r.completed[..r.cqTail])
    && |r.released| == r.cqRead
    && (forall k :: 0 <= k < r.cqRead ==> r.released[k] == Some(r.posted[r.completed[k]]))
  }

  /** What the slot of counter i holds, for the one turn of counters starting at clean. */
  ghost function Content(r: Ring, i: nat): Option<Buffer>
    requires CountersOrdered(r)
  {
    if i < r.Head() then
      if r.Handled(i) then None else Some(r.posted[i])
    else if i == r.Head() then r.mapped
    else None
  }

  ghost predicate SlotsSound(r: Ring)
    requires CountersOrdered(r) && r.size > 0 && |r.slots| == r.size
  {
    forall i: nat :: r.clean <= i < r.clean + r.size ==> r.slots[Slot(i, r.size)] == Content(r, i)
  }

  ghost predicate Inv(r: Ring)
  {
    && r.size > 0
    && |r.slots| == r.size
    && CountersOrdered(r)
    && CompletionsSound(r)
    && SlotsSound(r)
  }

  lemma EmptyInv(size: nat)
    requires size > 0
    ensures Inv(Empty(size))
  {
  }

  // Preservation, one event at a time

  lemma MapKeeps(r: Ring, b: Buffer)
    requires Inv(r) && Enabled(r, Map(b))
    ensures Inv(Step(r, Map(b)))
  {
    SlotUpdate(r, r.Head());
  }

  /** Rewriting the slot of counter c leaves the slots of the other counters of its turn alone. */
  lemma SlotUpdate(r: Ring, c: nat)
    requires r.size > 0 && r.clean <= c < r.clean + r.size
    ensures forall i: nat :: r.clean <= i < r.clean + r.size && i != c ==> Slot(i, r.size) != Slot(c, r.size)
  {
    forall i: nat | r.clean <= i < r.clean + r.size && i != c
      ensures Slot(i, r.size) != Slot(c, r.size)
    {
      if Slot(i, r.size) == Slot(c, r.size) {
        SlotsDistinct(i, c, r.size);
      }
    }
  }

  lemma UnmapKeeps(r: Ring)
    requires Inv(r) && Enabled(r, Unmap)
    ensures Inv(Step(r, Unmap))
  {
    SlotUpdate(r, r.Head());
  }

  lemma PushKeeps(r: Ring)
    requires Inv(r) && Enabled(r, Push)
    ensures Inv(Step(r, Push))
  {
    var n := Step(r, Push);
    forall i: nat | n.clean <= i < n.clean + n.size
      ensures n.slots[Slot(i, n.size)] == Content(n, i)
    {
      assert r.slots[Slot(i, r.size)] == Content(r, i);
      if i == r.Head() {
        assert !r.Handled(i);
      }
    }
  }

  lemma CompleteKeeps(r: Ring, i: nat)
    requires Inv(r) && Enabled(r, Complete(i))
    ensures Inv(Step(r, Complete(i)))
  {
    var n := Step(r, Complete(i));
    assert n.completed[..n.cqRead] == r.completed[..r.cqRead];
    assert n.completed[..n.cqTail] == r.completed[..r.cqTail];
    forall j: nat | n.clean <= j < n.clean + n.size
      ensures n.slots[Slot(j, n.size)] == Content(n, j)
    {
      assert r.slots[Slot(j, r.size)] == Content(r, j);
    }
  }

  /** An unhandled completion names a descriptor whose slot still holds its buffer. */
  lemma UnhandledIsHeld(r: Ring, k: nat)
    requires Inv(r) && r.cqRead <= k < |r.completed|
    ensures r.clean <= r.completed[k] < r.nicTail
    ensures r.slots[Slot(r.completed[k], r.size)] == Some(r.posted[r.completed[k]])
  {
    var c := r.completed[k];
    assert c !in r.completed[..r.cqRead];
    assert c !in r.completed[..r.cqTail];
    assert r.slots[Slot(c, r.size)] == Content(r, c);
  }

  lemma HandleKeeps(r: Ring)
    requires Inv(r) && Enabled(r, PollHandle)
    ensures Inv(Step(r, PollHandle))
  {
    var n := Step(r, PollHandle);
    var c := r.completed[r.cqRead];
    UnhandledIsHeld(r, r.cqRead);
    SlotUpdate(r, c);
    assert n.completed[..n.cqRead] == r.completed[..r.cqRead] + [c];
    forall i: nat | n.clean <= i < n.clean + n.size
      ensures n.slots[Slot(i, n.size)] == Content(n, i)
    {
      assert r.slots[Slot(i, r.size)] == Content(r, i);
    }
  }

  lemma ScanKeeps(r: Ring)
    requires Inv(r) && Enabled(r, PollScan)
    ensures Inv(Step(r, PollScan))
  {
    ScannedIsHandled(r);
    var n := Step(r, PollScan);
    hide Slot, SlotsSound;
    assert CountersOrdered(n);
    SlotsStay(r, n);
  }

  /** Slots stay right when only registers and the handler's progress change. */
  lemma SlotsStay(r: Ring, n: Ring)
    requires Inv(r) && CountersOrdered(n) && n.size == r.size && n.slots == r.slots && n.clean == r.clean
    requires n.posted == r.posted && n.mapped == r.mapped && n.completed == r.completed && n.cqRead == r.cqRead
    ensures n.size > 0 && |n.slots| == n.size && SlotsSound(n)
  {
    hide Slot, CompletionsSound;
    forall i: nat | n.clean <= i < n.clean + n.size
      ensures n.slots[Slot(i, n.size)] == Content(n, i)
    {
      assert r.slots[Slot(i, r.size)] == Content(r, i);
    }
  }

  lemma ScannedIsHandled(r: Ring)
    requires Inv(r) && Enabled(r, PollScan)
    ensures r.poll.at < r.tail && r.poll.at in r.completed[..r.cqTail]
  {
    var at := r.poll.at;
    assert r.slots[Slot(at, r.size)].None?;
    hide Slot, Distinct;
    assert r.slots[Slot(at, r.size)] == Content(r, at);
    assert r.Handled(at);
  }

  lemma CleanKeeps(r: Ring)
    requires Inv(r) && Enabled(r, PollClean)
    ensures Inv(Step(r, PollClean))
  {
    var n := Step(r, PollClean);
    forall i: nat | n.clean <= i < n.clean + n.size
      ensures n.slots[Slot(i, n.size)] == Content(n, i)
    {
      if i < r.clean + r.size {
        assert r.slots[Slot(i, r.size)] == Content(r, i);
      } else {
        SlotPeriod(i, r.size);
        assert r.slots[Slot(i - r.size, r.size)] == Content(r, i - r.size);
        assert r.Handled(i - r.size);
      }
    }
  }

  lemma OthersKeep(r: Ring, e: Event)
    requires Inv(r) && Enabled(r, e)
    requires e.Doorbell? || e.Consume? || e.PollStart? || e.PollGiveUp? || e.PollPublish?
             || e.PollReadTail? || e.PollEnd?
    ensures Inv(Step(r, e))
  {
    var n := Step(r, e);
    assert forall i :: i in r.completed[..r.cqTail] ==> i in r.completed[..r.cqRead];
    hide Slot, SlotsSound;
    assert CountersOrdered(n);
    SlotsStay(r, n);
  }

  /** Every step of every agent keeps the invariant. */
  lemma StepKeeps(r: Ring, e: Event)
    requires Inv(r) && Enabled(r, e)
    ensures Inv(Step(r, e))
  {
    match e
    case Map(b) => MapKeeps(r, b);
    case Unmap => UnmapKeeps(r);
    case Push => PushKeeps(r);
    case Complete(i) => CompleteKeeps(r, i);
    case PollHandle => HandleKeeps(r);
    case PollScan => ScanKeeps(r);
    case PollClean => CleanKeeps(r);
    case _ => OthersKeep(r, e);
  }

  // What the invariant means

  /** The slot a producer is about to fill holds nothing: no buffer in flight is overwritten. */
  lemma NoOverwrite(r: Ring)
    requires Inv(r) && r.mapped == None && r.Occupancy() < r.size
    ensures r.slots[Slot(r.Head(), r.size)] == None
  {
    assert r.slots[Slot(r.Head(), r.size)] == Content(r, r.Head());
  }

  /** A slot that is not the slot of a descriptor in [clean, head) is empty. */
  lemma OutsideWindowEmpty(r: Ring, s: nat)
    requires Inv(r) && r.mapped == None && s < r.size
    requires forall i: nat :: r.clean <= i < r.Head() ==> Slot(i, r.size) != s
    ensures r.slots[s] == None
  {
    var i := SlotOwner(r, s);
    assert r.slots[Slot(i, r.size)] == Content(r, i);
  }

  /** Every slot belongs to exactly one counter of the turn starting at clean. */
  lemma SlotOwner(r: Ring, s: nat) returns (i: nat)
    requires r.size > 0 && s < r.size
    ensures r.clean <= i < r.clean + r.size && Slot(i, r.size) == s
  {
    var base := r.clean % r.size;
    i := if base <= s then r.clean - base + s else r.clean - base + s + r.size;
    var q := r.clean / r.size;
    assert r.clean - base == q * r.size;
    QuotientUnique(q * r.size + s, r.size, q, s);
    if base > s {
      AddOne(q * r.size + s, r.size);
    }
  }

  /**
   * Each descriptor is released at most once, and while it is not released its slot
   * holds exactly the buffer it was posted with.
   */
  lemma ReleasedOnceOrHeld(r: Ring, i: nat)
    requires Inv(r) && i < r.Head()
    ensures (exists k :: 0 <= k < r.cqRead && r.completed[k] == i) <==>
            !(r.clean <= i && r.slots[Slot(i, r.size)] == Some(r.posted[i]))
    ensures forall j, k :: 0 <= j < r.cqRead && 0 <= k < r.cqRead && r.completed[j] == i == r.completed[k] ==> j == k
    ensures forall k :: 0 <= k < r.cqRead && r.completed[k] == i ==> r.released[k] == Some(r.posted[i])
  {
    if r.clean <= i {
      assert r.slots[Slot(i, r.size)] == Content(r, i);
    } else {
      assert i in r.completed[..r.cqTail];
    }
  }

  /** Distinct numbers drawn from an interval are no more than the interval is long. */
  lemma {:induction false} Pigeonhole(s: seq<nat>, lo: nat, hi: nat)
    requires Distinct(s) && lo <= hi
    requires forall k :: 0 <= k < |s| ==> lo <= s[k] < hi
    ensures |s| <= hi - lo
    decreases hi
  {
    if s != [] {
      assert lo <= s[0] < hi;
      if k :| 0 <= k < |s| && s[k] == hi - 1 {
        Pigeonhole(s[..k] + s[k + 1..], lo, hi - 1);
      } else {
        Pigeonhole(s, lo, hi - 1);
      }
    }
  }

  /**
   * Completions not yet returned to the NIC name distinct unreclaimed descriptors, so a
   * completion queue with as many entries as the ring never overflows: the NIC needs no
   * back-pressure.
   */
  lemma CompletionQueueFits(r: Ring)
    requires Inv(r)
    ensures |r.completed| - r.cqTail <= r.nicTail - r.clean <= r.size
  {
    var unread := r.completed[r.cqTail..];
    forall k | 0 <= k < |unread|
      ensures r.clean <= unread[k] < r.nicTail
    {
      assert unread[k] == r.completed[r.cqTail + k];
      assert unread[k] !in r.completed[..r.cqTail];
    }
    Pigeonhole(unread, r.clean, r.nicTail);
  }

  /** The completion entry the NIC writes next is not one the driver has still to read. */
  lemma CompletionEntryFree(r: Ring, i: nat)
    requires Inv(r) && Enabled(r, Complete(i))
    ensures forall k: nat :: r.cqRead <= k < |r.completed| ==> Slot(k, r.size) != Slot(|r.completed|, r.size)
  {
    var n := |r.completed|;
    CompleteKeeps(r, i);
    CompletionQueueFits(Step(r, Complete(i)));
    forall k: nat | r.cqRead <= k < n
      ensures Slot(k, r.size) != Slot(n, r.size)
    {
      if Slot(k, r.size) == Slot(n, r.size) {
        SlotsDistinct(n, k, r.size);
      }
    }
  }

  /** Whoever only posts leaves the first slot not reclaimed as it was: still held, or all reclaimed. */
  lemma StillHeld(r: Ring, next: Ring)
    requires Inv(r) && Inv(next) && r.mapped == None && r.posted <= next.posted
    requires next == r.(posted := next.posted, slots := next.slots, bell := next.bell, poll := next.poll)
    requires r.clean == r.nicTail || r.slots[Slot(r.clean, r.size)].Some?
    ensures next.clean == next.nicTail || next.slots[Slot(next.clean, next.size)].Some?
  {
    hide Slot;
    if r.clean < r.nicTail {
      assert r.slots[Slot(r.clean, r.size)] == Content(r, r.clean);
      assert next.slots[Slot(next.clean, next.size)] == Content(next, next.clean);
    }
  }

  /**
   * Once the NIC has completed everything posted and the driver has handled it all, a
   * clean scan that cannot go on has reclaimed the whole ring.
   */
  lemma DrainedIsEmpty(r: Ring)
    requires Inv(r) && r.cqRead == |r.completed| == r.nicTail == r.Head()
    requires r.clean == r.nicTail || r.slots[Slot(r.clean, r.size)].Some?
    ensures r.Occupancy() == 0
  {
    if r.clean < r.nicTail {
      assert r.slots[Slot(r.clean, r.size)] == Content(r, r.clean);
      assert r.completed[..r.cqRead] == r.completed;
      Pigeonhole(r.completed + [r.clean], 0, r.nicTail);
    }
  }
}
