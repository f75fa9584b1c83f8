/** All the ports of a plane, the packet slots they share, and every step the driver,
    its caller and the NICs can take. */
module Plane {
  import opened Arithmetic
  import opened Common
  import opened Rings

  /** A port: its two rings, where the search for a free slot resumes, and how many
      transmit descriptors wait for the doorbell. */
  datatype Port = Port(rx: Ring, tx: Ring, slotNext: nat, suspended: nat)

  /** `slots` holds the in-flight flags; port p searches the `count` slots that start
      at p * count. `hand` is what the caller holds. */
  datatype State = State(ports: seq<Port>, slots: seq<bool>, count: nat, hand: multiset<int>)

  const MAX_DATA_PER_TXD: nat := 0x4000

  /** End of packet, report status, data descriptor, extended, checksum insertion. */
  const TX_FLAGS: nat := 0x0100_0000 + 0x0800_0000 + 0x0030_0000 + 0x2000_0000 + 0x0200_0000

  function RxDesc(addr: nat): Desc {
    Desc(addr, 0)
  }

  /** Command and length in the lower half, payload length in the upper half. */
  function TxDesc(addr: nat, size: nat): Desc {
    Desc(addr, (size + TX_FLAGS) + TWO32 * (size * 0x4000))
  }

  /** A freshly written descriptor never shows the done bit: the payload length is
      shifted clear of it. */
  lemma FreshNotDone(addr: nat, size: nat)
    ensures !Done(true, RxDesc(addr))
    ensures size <= MAX_DATA_PER_TXD ==> !Done(false, TxDesc(addr, size))
  {
    if size <= MAX_DATA_PER_TXD {
      var d := TxDesc(addr, size);
      assert size + TX_FLAGS < TWO32;
      assert d.word / TWO32 == size * 0x4000;
    }
  }

  // ----- the search for a free slot

  /** The i-th slot looked at, counting from where the search resumes. */
  function Probe(next: nat, count: nat, i: nat): nat {
    if next + i < count then next + i else next + i - count
  }

  /** First free slot of a port's range, in search order, as an offset in the range. */
  function FindSlot(slots: seq<bool>, off: nat, count: nat, next: nat, i: nat): (k: int)
    requires i <= count && off + count <= |slots| && (count > 0 ==> next < count)
    ensures -1 <= k < count
    ensures k >= 0 ==> !slots[off + k]
    decreases count - i
  {
    if i == count then -1
    else if !slots[off + Probe(next, count, i)] then Probe(next, count, i)
    else FindSlot(slots, off, count, next, i + 1)
  }

  lemma {:induction false} FindSlotNone(slots: seq<bool>, off: nat, count: nat, next: nat, i: nat)
    requires i <= count && off + count <= |slots| && (count > 0 ==> next < count)
    ensures FindSlot(slots, off, count, next, i) < 0
            <==> forall j | i <= j < count :: slots[off + Probe(next, count, j)]
    decreases count - i
  {
    if i < count {
      FindSlotNone(slots, off, count, next, i + 1);
    }
  }

  /** The search comes back empty exactly when the port's whole range is in flight. */
  lemma FindSlotFails(slots: seq<bool>, off: nat, count: nat, next: nat)
    requires off + count <= |slots| && (count > 0 ==> next < count)
    ensures FindSlot(slots, off, count, next, 0) < 0 <==> forall s | off <= s < off + count :: slots[s]
  {
    FindSlotNone(slots, off, count, next, 0);
    if forall j | 0 <= j < count :: slots[off + Probe(next, count, j)] {
      forall s | off <= s < off + count
        ensures slots[s]
      {
        var k := s - off;
        var j := if k >= next then k - next else k + count - next;
        assert Probe(next, count, j) == k;
      }
    }
  }

  lemma {:induction false} FindSlotAt(slots: seq<bool>, off: nat, count: nat, next: nat, i: nat) returns (n: nat)
    requires i <= count && off + count <= |slots| && (count > 0 ==> next < count)
    requires FindSlot(slots, off, count, next, i) >= 0
    ensures i <= n < count && FindSlot(slots, off, count, next, i) == Probe(next, count, n)
    ensures forall j | i <= j < n :: slots[off + Probe(next, count, j)]
    decreases count - i
  {
    if slots[off + Probe(next, count, i)] {
      n := FindSlotAt(slots, off, count, next, i + 1);
    } else {
      n := i;
    }
  }

  /** The search takes the first free slot: every one it passed over, going round from
      where it started, is in flight. */
  lemma FirstFree(slots: seq<bool>, off: nat, count: nat, next: nat)
    requires off + count <= |slots| && (count > 0 ==> next < count)
    ensures var k := FindSlot(slots, off, count, next, 0);
            k >= 0 ==> forall s | off <= s < off + count ::
                         (if next <= k then next <= s - off < k else s - off >= next || s - off < k) ==> slots[s]
  {
    var k := FindSlot(slots, off, count, next, 0);
    if k >= 0 {
      var n := FindSlotAt(slots, off, count, next, 0);
      forall s | off <= s < off + count && (if next <= k then next <= s - off < k else s - off >= next || s - off < k)
        ensures slots[s]
      {
        var x := s - off;
        var j := if x >= next then x - next else x + count - next;
        assert j < n && Probe(next, count, j) == x;
      }
    }
  }

  // ----- who holds which slot

  /** Slots in all, with `count` for each port. */
  function Total(ports: nat, count: nat): nat {
    ports * count
  }

  ghost predicate PortsOk(ports: seq<Port>) {
    forall i | 0 <= i < |ports| ::
      RingOk(ports[i].rx) && ports[i].rx.rx && RingOk(ports[i].tx) && !ports[i].tx.rx
  }

  ghost function HeldPort(q: Port): multiset<int>
    requires RingOk(q.rx) && RingOk(q.tx)
  {
    multiset(Window(q.rx)) + multiset(Window(q.tx))
  }

  ghost function HeldPorts(ports: seq<Port>, k: nat): multiset<int>
    requires PortsOk(ports) && k <= |ports|
  {
    if k == 0 then multiset{} else HeldPorts(ports, k - 1) + HeldPort(ports[k - 1])
  }

  /** Every place a slot can be, with how often it is there. */
  ghost function Held(st: State): multiset<int>
    requires PortsOk(st.ports)
  {
    HeldPorts(st.ports, |st.ports|) + st.hand
  }

  ghost function InFlight(slots: seq<bool>): multiset<int> {
    multiset(set s: int | 0 <= s < |slots| && slots[s])
  }

  /** Changing one port changes the count of a slot by what that port gains or loses. */
  lemma {:induction false} HeldUpdate(ports: seq<Port>, p: nat, q: Port, k: nat, x: int)
    requires PortsOk(ports) && p < |ports| && k <= |ports|
    requires RingOk(q.rx) && q.rx.rx && RingOk(q.tx) && !q.tx.rx
    ensures PortsOk(ports[p := q])
    ensures HeldPorts(ports[p := q], k)[x] + (if p < k then HeldPort(ports[p])[x] else 0)
            == HeldPorts(ports, k)[x] + (if p < k then HeldPort(q)[x] else 0)
  {
    hide RingOk, HeldPort, Total;
    if k > 0 {
      HeldUpdate(ports, p, q, k - 1, x);
    }
  }

  lemma InFlightSet(slots: seq<bool>, s: nat)
    requires s < |slots|
    ensures !slots[s] ==> InFlight(slots[s := true]) == InFlight(slots) + multiset{s}
    ensures slots[s] ==> InFlight(slots) == InFlight(slots[s := false]) + multiset{s}
    ensures !slots[s] ==> InFlight(slots[s := false]) == InFlight(slots)
    ensures InFlight(slots)[s] == if slots[s] then 1 else 0
  {
    var on := set x: int | 0 <= x < |slots| && slots[x];
    var t, u := slots[s := true], slots[s := false];
    assert (set x: int | 0 <= x < |t| && t[x]) == on + {s};
    assert (set x: int | 0 <= x < |u| && u[x]) == on - {s};
  }

  /** In every state: the rings are in order, and each in-flight slot is in exactly
      one place while a free slot is in none. */
  ghost predicate Inv(st: State) {
    && PortsOk(st.ports)
    && |st.slots| == Total(|st.ports|, st.count)
    && (forall i | 0 <= i < |st.ports| :: st.count > 0 ==> st.ports[i].slotNext < st.count)
    && (forall i | 0 <= i < |st.ports| :: Suspended(st.ports[i]))
    && Held(st) == InFlight(st.slots)
  }

  /** The doorbell counter counts the transmit descriptors the NIC has not been told
      about. */
  ghost predicate Suspended(q: Port)
    requires RingOk(q.tx)
  {
    q.suspended == Outstanding(q.tx) - Posted(q.tx)
  }

  lemma RangeInside(p: nat, n: nat, count: nat)
    requires p < n
    ensures p * count + count <= n * count
  {
    MulMono(count, p + 1, n);
    MulSum(count, p, 1);
  }

  // ----- steps

  datatype Action =
    | RxAssign(port: nat, addr: nat)             // find a free slot and give it to the receive ring
    | RxDoorbell(port: nat)
    | RxClean(port: nat)                         // a received slot goes to the caller
    | TxAssign(port: nat, slot: int, addr: nat, size: nat)
    | TxXmit(port: nat)
    | TxClean(port: nat)                         // a transmitted slot becomes free
    | SlotAssign(port: nat)                      // the caller takes a free slot
    | SlotRelease(slot: int)                     // the caller gives a slot back
    | NicRx(port: nat, word: nat)                // the NIC finishes a receive descriptor
    | NicTx(port: nat, word: nat)

  /** Slot k of port p's range. */
  function SlotAt(st: State, p: nat, k: nat): (s: nat)
    requires p < |st.ports| && k < st.count && |st.slots| == Total(|st.ports|, st.count)
    ensures s < |st.slots|
  {
    RangeInside(p, |st.ports|, st.count);
    p * st.count + k
  }

  function Find(st: State, p: nat): (k: int)
    requires p < |st.ports| && |st.slots| == Total(|st.ports|, st.count) && (st.count > 0 ==> st.ports[p].slotNext < st.count)
    ensures -1 <= k < st.count
    ensures k >= 0 ==> !st.slots[SlotAt(st, p, k)]
  {
    RangeInside(p, |st.ports|, st.count);
    FindSlot(st.slots, p * st.count, st.count, st.ports[p].slotNext, 0)
  }

  ghost predicate RangeInFlight(st: State, p: nat)
    requires p < |st.ports| && |st.slots| == Total(|st.ports|, st.count)
  {
    forall k: nat | k < st.count :: st.slots[SlotAt(st, p, k)]
  }

  lemma FindFails(st: State, p: nat)
    requires p < |st.ports| && |st.slots| == Total(|st.ports|, st.count) && (st.count > 0 ==> st.ports[p].slotNext < st.count)
    ensures Find(st, p) < 0 <==> RangeInFlight(st, p)
  {
    hide FindSlot;
    var off := p * st.count;
    RangeInside(p, |st.ports|, st.count);
    FindSlotFails(st.slots, off, st.count, st.ports[p].slotNext);
    if RangeInFlight(st, p) {
      forall s | off <= s < off + st.count
        ensures st.slots[s]
      {
        assert st.slots[SlotAt(st, p, s - off)];
      }
    }
  }

  /** When a step can happen. The caller may hand over or give up only slots it
      holds; the NIC finishes descriptors it owns, in order. */
  ghost predicate Enabled(st: State, a: Action)
    requires Inv(st)
  {
    match a
    case RxAssign(p, _) => p < |st.ports| && Unused(st.ports[p].rx) > 0 && Find(st, p) >= 0
    case RxDoorbell(p) => p < |st.ports|
    case RxClean(p) => p < |st.ports| && CanClean(st.ports[p].rx)
    case TxAssign(p, s, _, _) => p < |st.ports| && s in st.hand
    case TxXmit(p) => p < |st.ports|
    case TxClean(p) => p < |st.ports| && CanClean(st.ports[p].tx)
    case SlotAssign(p) => p < |st.ports| && Find(st, p) >= 0
    case SlotRelease(s) => s in st.hand
    case NicRx(p, w) => p < |st.ports| && st.ports[p].rx.head != st.ports[p].rx.tail && Done(true, Desc(0, w))
    case NicTx(p, w) => p < |st.ports| && st.ports[p].tx.head != st.ports[p].tx.tail && Done(false, Desc(0, w))
  }

  /** The flag of a slot is cleared, whoever holds it. */
  function Release(slots: seq<bool>, s: int): seq<bool> {
    if 0 <= s < |slots| then slots[s := false] else slots
  }

  /** Where the search resumes after slot k was taken. */
  function Resume(count: nat, k: nat): nat {
    if k + 1 == count then 0 else k + 1
  }

  function SetPort(st: State, p: nat, q: Port, slots: seq<bool>, hand: multiset<int>): State
    requires p < |st.ports|
  {
    State(st.ports[p := q], slots, st.count, hand)
  }

  /** No room in the transmit ring, or too long for one descriptor. */
  predicate Refused(st: State, p: nat, size: nat)
    requires p < |st.ports|
  {
    Unused(st.ports[p].tx) == 0 || size > MAX_DATA_PER_TXD
  }

  /** A slot handed over for transmission: attached to the ring, or freed. */
  function GiveToTx(st: State, p: nat, s: int, addr: nat, size: nat): State
    requires p < |st.ports| && Indices(st.ports[p].tx)
  {
    var q := st.ports[p];
    if Refused(st, p, size) then SetPort(st, p, q, Release(st.slots, s), st.hand - multiset{s})
    else SetPort(st, p, q.(tx := Assign(q.tx, s, TxDesc(addr, size)), suspended := q.suspended + 1),
                 st.slots, st.hand - multiset{s})
  }

  /** The slot that the search on a port comes upon is attached to its receive ring. */
  function GiveToRx(st: State, p: nat, addr: nat): State
    requires p < |st.ports| && Indices(st.ports[p].rx) && |st.slots| == Total(|st.ports|, st.count)
    requires (st.count > 0 ==> st.ports[p].slotNext < st.count) && Find(st, p) >= 0
  {
    var q, k := st.ports[p], Find(st, p);
    var s := SlotAt(st, p, k);
    SetPort(st, p, q.(rx := Assign(q.rx, s, RxDesc(addr)), slotNext := Resume(st.count, k)),
            st.slots[s := true], st.hand)
  }

  /** A slot given up: its flag is cleared, whatever else refers to it. */
  function GiveBack(st: State, s: int): State {
    st.(slots := Release(st.slots, s), hand := st.hand - multiset{s})
  }

  ghost function Apply(st: State, a: Action): State
    requires Inv(st) && Enabled(st, a)
  {
    match a
    case RxAssign(p, addr) => GiveToRx(st, p, addr)
    case RxDoorbell(p) =>
      SetPort(st, p, st.ports[p].(rx := Doorbell(st.ports[p].rx)), st.slots, st.hand)
    case RxClean(p) =>
      var q := st.ports[p];
      SetPort(st, p, q.(rx := Clean(q.rx)), st.slots, st.hand + multiset{q.rx.slot[q.rx.clean]})
    case TxAssign(p, s, addr, size) => GiveToTx(st, p, s, addr, size)
    case TxXmit(p) =>
      var q := st.ports[p];
      SetPort(st, p, if q.suspended == 0 then q else q.(tx := Doorbell(q.tx), suspended := 0), st.slots, st.hand)
    case TxClean(p) =>
      var q := st.ports[p];
      SetPort(st, p, q.(tx := Clean(q.tx)), Release(st.slots, q.tx.slot[q.tx.clean]), st.hand)
    case SlotAssign(p) =>
      var k := Find(st, p);
      var s := SlotAt(st, p, k);
      SetPort(st, p, st.ports[p].(slotNext := Resume(st.count, k)), st.slots[s := true], st.hand + multiset{s})
    case SlotRelease(s) => GiveBack(st, s)
    case NicRx(p, w) =>
      SetPort(st, p, st.ports[p].(rx := Complete(st.ports[p].rx, w)), st.slots, st.hand)
    case NicTx(p, w) =>
      SetPort(st, p, st.ports[p].(tx := Complete(st.ports[p].tx, w)), st.slots, st.hand)
  }

  // ----- every step keeps the invariant

  ghost predicate PortOk(q: Port, count: nat)
    ensures PortOk(q, count) ==> RingOk(q.rx) && RingOk(q.tx)
  {
    && RingOk(q.rx) && q.rx.rx && RingOk(q.tx) && !q.tx.rx
    && (count > 0 ==> q.slotNext < count) && Suspended(q)
  }

  /** A step that changes one port, the flags and the caller's slots keeps the
      invariant if every slot stays accounted for. */
  lemma OnePort(st: State, p: nat, q: Port, slots: seq<bool>, hand: multiset<int>)
    requires Inv(st) && p < |st.ports| && PortOk(q, st.count) && |slots| == |st.slots|
    requires forall x: int :: HeldPort(q)[x] + hand[x] + InFlight(st.slots)[x]
                              == HeldPort(st.ports[p])[x] + st.hand[x] + InFlight(slots)[x]
    ensures Inv(SetPort(st, p, q, slots, hand))
  {
    hide RingOk, HeldPort, HeldPorts, InFlight, Suspended, Total;
    var st' := SetPort(st, p, q, slots, hand);
    HeldUpdate(st.ports, p, q, 0, 0);
    forall x: int
      ensures Held(st')[x] == InFlight(slots)[x]
    {
      HeldUpdate(st.ports, p, q, |st.ports|, x);
      assert Held(st)[x] == InFlight(st.slots)[x];
    }
  }

  /** A slot that someone holds has its flag set, and is held once. */
  lemma HeldOnce(st: State, s: int)
    requires Inv(st) && s in Held(st)
    ensures 0 <= s < |st.slots| && st.slots[s] && Held(st)[s] == 1
  {
    hide HeldPorts, PortsOk, Total;
    assert s in InFlight(st.slots);
    InFlightSet(st.slots, s);
  }

  lemma {:induction false} PortHolds(ports: seq<Port>, p: nat, k: nat, s: int)
    requires PortsOk(ports) && p < k <= |ports| && s in HeldPort(ports[p])
    ensures s in HeldPorts(ports, k)
  {
    hide HeldPort, RingOk, Total;
    if p < k - 1 {
      PortHolds(ports, p, k - 1, s);
    }
  }

  // the effect of each step on its port

  lemma RxAssignPort(q: Port, count: nat, s: int, addr: nat, next: nat)
    requires PortOk(q, count) && Unused(q.rx) > 0 && (count > 0 ==> next < count)
    ensures var q' := q.(rx := Assign(q.rx, s, RxDesc(addr)), slotNext := next);
            PortOk(q', count) && HeldPort(q') == HeldPort(q) + multiset{s}
  {
    hide RingOk, Window, Done, Unused, Assign, Posted, Outstanding;
    FreshNotDone(addr, 0);
    AssignOk(q.rx, s, RxDesc(addr));
  }

  lemma TxAssignPort(q: Port, count: nat, s: int, addr: nat, size: nat)
    requires PortOk(q, count) && Unused(q.tx) > 0 && size <= MAX_DATA_PER_TXD
    ensures var q' := q.(tx := Assign(q.tx, s, TxDesc(addr, size)), suspended := q.suspended + 1);
            PortOk(q', count) && HeldPort(q') == HeldPort(q) + multiset{s}
  {
    hide RingOk, Window, Done, Unused, Assign, Posted, Outstanding;
    FreshNotDone(addr, size);
    AssignOk(q.tx, s, TxDesc(addr, size));
  }

  lemma DoorbellPort(q: Port, count: nat)
    requires PortOk(q, count)
    ensures var q' := q.(rx := Doorbell(q.rx)); PortOk(q', count) && HeldPort(q') == HeldPort(q)
    ensures var q' := q.(tx := Doorbell(q.tx), suspended := 0); PortOk(q', count) && HeldPort(q') == HeldPort(q)
  {
    hide RingOk, Window, Done, Doorbell, Posted, Outstanding;
    DoorbellOk(q.rx);
    DoorbellOk(q.tx);
  }

  lemma RxCleanPort(q: Port, count: nat)
    requires PortOk(q, count) && CanClean(q.rx)
    ensures var q' := q.(rx := Clean(q.rx));
            PortOk(q', count) && HeldPort(q) == HeldPort(q') + multiset{q.rx.slot[q.rx.clean]}
  {
    hide RingOk, Window, Done, CanClean, Posted, Outstanding;
    CleanOk(q.rx);
  }

  lemma TxCleanPort(q: Port, count: nat)
    requires PortOk(q, count) && CanClean(q.tx)
    ensures var q' := q.(tx := Clean(q.tx));
            PortOk(q', count) && HeldPort(q) == HeldPort(q') + multiset{q.tx.slot[q.tx.clean]}
  {
    hide RingOk, Window, Done, CanClean, Posted, Outstanding;
    CleanOk(q.tx);
  }

  lemma NicPort(q: Port, count: nat, w: nat)
    requires PortOk(q, count)
    ensures q.rx.head != q.rx.tail && Done(true, Desc(0, w)) ==>
              var q' := q.(rx := Complete(q.rx, w)); PortOk(q', count) && HeldPort(q') == HeldPort(q)
    ensures q.tx.head != q.tx.tail && Done(false, Desc(0, w)) ==>
              var q' := q.(tx := Complete(q.tx, w)); PortOk(q', count) && HeldPort(q') == HeldPort(q)
  {
    hide Window, Posted, Outstanding, RingOk;
    if q.rx.head != q.rx.tail && Done(true, Desc(0, w)) {
      CompleteOk(q.rx, w);
    }
    if q.tx.head != q.tx.tail && Done(false, Desc(0, w)) {
      CompleteOk(q.tx, w);
    }
  }

  lemma PortAt(st: State, p: nat)
    requires Inv(st) && p < |st.ports|
    ensures PortOk(st.ports[p], st.count)
  {
    hide RingOk, Held, InFlight, Suspended, Total;
  }

  // the whole state

  lemma RxAssignKeeps(st: State, p: nat, addr: nat)
    requires Inv(st) && Enabled(st, RxAssign(p, addr))
    ensures Inv(Apply(st, RxAssign(p, addr)))
  {
    hide PortOk, InFlight, SlotAt, HeldPort, Held, PortsOk, Suspended, Unused, FindSlot, Total;
    var q, k := st.ports[p], Find(st, p);
    var s := SlotAt(st, p, k);
    PortAt(st, p);
    RxAssignPort(q, st.count, s, addr, Resume(st.count, k));
    InFlightSet(st.slots, s);
    OnePort(st, p, q.(rx := Assign(q.rx, s, RxDesc(addr)), slotNext := Resume(st.count, k)), st.slots[s := true], st.hand);
  }

  lemma QuietKeeps(st: State, p: nat, w: nat)
    requires Inv(st)
    ensures Enabled(st, RxDoorbell(p)) ==> Inv(Apply(st, RxDoorbell(p)))
    ensures Enabled(st, TxXmit(p)) ==> Inv(Apply(st, TxXmit(p)))
    ensures Enabled(st, NicRx(p, w)) ==> Inv(Apply(st, NicRx(p, w)))
    ensures Enabled(st, NicTx(p, w)) ==> Inv(Apply(st, NicTx(p, w)))
  {
    hide PortOk, InFlight, SlotAt, HeldPort, Held, PortsOk, Suspended, Unused, FindSlot, CanClean, Total;
    if p < |st.ports| {
      var q := st.ports[p];
      PortAt(st, p);
      DoorbellPort(q, st.count);
      NicPort(q, st.count, w);
      OnePort(st, p, q, st.slots, st.hand);
      OnePort(st, p, q.(rx := Doorbell(q.rx)), st.slots, st.hand);
      OnePort(st, p, q.(tx := Doorbell(q.tx), suspended := 0), st.slots, st.hand);
      if q.rx.head != q.rx.tail && Done(true, Desc(0, w)) {
        OnePort(st, p, q.(rx := Complete(q.rx, w)), st.slots, st.hand);
      }
      if q.tx.head != q.tx.tail && Done(false, Desc(0, w)) {
        OnePort(st, p, q.(tx := Complete(q.tx, w)), st.slots, st.hand);
      }
    }
  }

  lemma RxCleanKeeps(st: State, p: nat)
    requires Inv(st) && Enabled(st, RxClean(p))
    ensures Inv(Apply(st, RxClean(p)))
  {
    hide PortOk, InFlight, SlotAt, HeldPort, Held, PortsOk, Suspended, Unused, FindSlot, CanClean, Total;
    var q := st.ports[p];
    PortAt(st, p);
    RxCleanPort(q, st.count);
    OnePort(st, p, q.(rx := Clean(q.rx)), st.slots, st.hand + multiset{q.rx.slot[q.rx.clean]});
  }

  lemma TxCleanKeeps(st: State, p: nat)
    requires Inv(st) && Enabled(st, TxClean(p))
    ensures Inv(Apply(st, TxClean(p)))
  {
    hide PortOk, InFlight, SlotAt, HeldPort, Held, PortsOk, Suspended, Unused, FindSlot, CanClean, Total;
    var q := st.ports[p];
    PortAt(st, p);
    TxCleanPort(q, st.count);
    var s := q.tx.slot[q.tx.clean];
    assert s in Held(st) by { assert s in HeldPort(q); InPort(st, p, s); }
    HeldOnce(st, s);
    InFlightSet(st.slots, s);
    OnePort(st, p, q.(tx := Clean(q.tx)), Release(st.slots, s), st.hand);
  }

  lemma InPort(st: State, p: nat, s: int)
    requires Inv(st) && p < |st.ports| && RingOk(st.ports[p].rx) && RingOk(st.ports[p].tx) && s in HeldPort(st.ports[p])
    ensures s in Held(st)
  {
    PortHolds(st.ports, p, |st.ports|, s);
  }

  lemma InHand(st: State, s: int)
    requires Inv(st) && s in st.hand
    ensures 0 <= s < |st.slots| && st.slots[s] && st.hand[s] == 1
  {
    hide HeldPorts, Total;
    HeldOnce(st, s);
  }

  lemma TxAssignKeeps(st: State, p: nat, s: int, addr: nat, size: nat)
    requires Inv(st) && Enabled(st, TxAssign(p, s, addr, size))
    ensures Inv(Apply(st, TxAssign(p, s, addr, size)))
  {
    hide PortOk, InFlight, SlotAt, HeldPort, Held, PortsOk, Suspended, Unused, FindSlot, CanClean, Total;
    var q := st.ports[p];
    PortAt(st, p);
    InHand(st, s);
    InFlightSet(st.slots, s);
    if Unused(q.tx) == 0 || size > MAX_DATA_PER_TXD {
      OnePort(st, p, q, Release(st.slots, s), st.hand - multiset{s});
    } else {
      UnusedRight(q.tx);
      TxAssignPort(q, st.count, s, addr, size);
      OnePort(st, p, q.(tx := Assign(q.tx, s, TxDesc(addr, size)), suspended := q.suspended + 1),
              st.slots, st.hand - multiset{s});
    }
  }

  lemma SlotAssignKeeps(st: State, p: nat)
    requires Inv(st) && Enabled(st, SlotAssign(p))
    ensures Inv(Apply(st, SlotAssign(p)))
  {
    hide PortOk, InFlight, SlotAt, HeldPort, Held, PortsOk, Suspended, Unused, FindSlot, CanClean, Total;
    var q, k := st.ports[p], Find(st, p);
    var s := SlotAt(st, p, k);
    PortAt(st, p);
    MovedSearch(q, st.count, Resume(st.count, k));
    InFlightSet(st.slots, s);
    OnePort(st, p, q.(slotNext := Resume(st.count, k)), st.slots[s := true], st.hand + multiset{s});
  }

  lemma MovedSearch(q: Port, count: nat, next: nat)
    requires PortOk(q, count) && (count > 0 ==> next < count)
    ensures var q' := q.(slotNext := next); PortOk(q', count) && HeldPort(q') == HeldPort(q)
  {
  }

  lemma SlotReleaseKeeps(st: State, s: int)
    requires Inv(st) && Enabled(st, SlotRelease(s))
    ensures Inv(Apply(st, SlotRelease(s)))
  {
    hide InFlight, PortsOk, Suspended, HeldPorts, Total;
    InHand(st, s);
    InFlightSet(st.slots, s);
    var st' := Apply(st, SlotRelease(s));
    forall x: int
      ensures Held(st')[x] == InFlight(st'.slots)[x]
    {
      assert Held(st)[x] == InFlight(st.slots)[x];
    }
  }

  /** Every step of the driver, the caller or a NIC keeps the invariant. */
  lemma StepKeeps(st: State, a: Action)
    requires Inv(st) && Enabled(st, a)
    ensures Inv(Apply(st, a))
  {
    hide Inv, Enabled, Apply;
    match a
    case RxAssign(p, addr) => RxAssignKeeps(st, p, addr);
    case RxDoorbell(p) => QuietKeeps(st, p, 0);
    case RxClean(p) => RxCleanKeeps(st, p);
    case TxAssign(p, s, addr, size) => TxAssignKeeps(st, p, s, addr, size);
    case TxXmit(p) => QuietKeeps(st, p, 0);
    case TxClean(p) => TxCleanKeeps(st, p);
    case SlotAssign(p) => SlotAssignKeeps(st, p);
    case SlotRelease(s) => SlotReleaseKeeps(st, s);
    case NicRx(p, w) => QuietKeeps(st, p, w);
    case NicTx(p, w) => QuietKeeps(st, p, w);
  }
}
