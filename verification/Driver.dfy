/** The driver's calls as the program runs them: loops over the rings, with the NICs
    free to make progress before every turn. Each call is a run of the atomic steps. */
module Driver {
  import opened Arithmetic
  import opened Buffers
  import opened Common
  import opened Rings
  import opened Plane
  import opened PlaneRuns
  import opened Forwarding

  /** A received packet: its slot and its length. */
  datatype Received = Received(slot: int, size: nat)

  ghost predicate NicStep(a: Action) {
    a.NicRx? || a.NicTx?
  }

  /** A call of the driver that loops, and the port it works on. */
  datatype Call = NicOnly | RxFill(port: nat) | RxDrain(port: nat) | TxDrain(port: nat)

  ghost predicate Belongs(a: Action, c: Call) {
    match c
    case NicOnly => false
    case RxFill(p) => a == RxDoorbell(p) || (a.RxAssign? && a.port == p)
    case RxDrain(p) => a == RxClean(p)
    case TxDrain(p) => a == TxClean(p)
  }

  /** The trace goes on with steps of one call and of the NICs only. */
  ghost predicate Extends(before: seq<Action>, after: seq<Action>, c: Call) {
    before <= after && forall a | a in after[|before|..] :: Belongs(a, c) || NicStep(a)
  }

  lemma ExtendsNone(trace: seq<Action>, c: Call)
    ensures Extends(trace, trace, c)
  {
  }

  lemma ExtendsOne(before: seq<Action>, mid: seq<Action>, a: Action, c: Call)
    requires Extends(before, mid, c) && (Belongs(a, c) || NicStep(a))
    ensures Extends(before, mid + [a], c)
  {
    assert (mid + [a])[|before|..] == mid[|before|..] + [a];
  }

  lemma ExtendsTrans(before: seq<Action>, mid: seq<Action>, after: seq<Action>, c: Call)
    requires Extends(before, mid, c) && Extends(mid, after, c)
    ensures Extends(before, after, c)
  {
    assert after[|before|..] == mid[|before|..] + after[|mid|..];
  }

  lemma ExtendsNic(before: seq<Action>, mid: seq<Action>, after: seq<Action>, c: Call)
    requires Extends(before, mid, c) && Extends(mid, after, NicOnly)
    ensures Extends(before, after, c)
  {
    assert after[|before|..] == mid[|before|..] + after[|mid|..];
  }

  ghost predicate RingSame(r: Ring, r': Ring) {
    && r'.rx == r.rx && r'.size == r.size && r'.use == r.use && r'.clean == r.clean && r'.tail == r.tail
    && r'.slot == r.slot
  }

  /** What of a port only the driver changes. */
  ghost predicate SoftwareSame(q: Port, q': Port) {
    && q'.slotNext == q.slotNext && q'.suspended == q.suspended
    && RingSame(q.rx, q'.rx) && RingSame(q.tx, q'.tx)
  }

  ghost predicate AllSame(ps: seq<Port>, ps': seq<Port>) {
    |ps'| == |ps| && forall p | 0 <= p < |ps| :: SoftwareSame(ps[p], ps'[p])
  }

  /** The NIC has been told about every receive descriptor of the port. */
  ghost predicate ToldAt(q: Port) {
    q.rx.tail == q.rx.use
  }

  /** As many ports as before, and no port falls behind with telling the NIC. */
  ghost predicate StillTold(ps: seq<Port>, ps': seq<Port>)
    ensures StillTold(ps, ps') ==> |ps'| == |ps|
  {
    |ps'| == |ps| && forall p | 0 <= p < |ps| && ToldAt(ps[p]) :: ToldAt(ps'[p])
  }

  lemma ToldTrans(ps: seq<Port>, qs: seq<Port>, rs: seq<Port>)
    requires StillTold(ps, qs) && StillTold(qs, rs)
    ensures StillTold(ps, rs)
  {
  }

  lemma NoneBehind(ps: seq<Port>)
    ensures StillTold(ps, ps)
  {
  }

  lemma TxOnly(ps: seq<Port>, p: nat, q: Port)
    requires p < |ps| && q.rx == ps[p].rx
    ensures StillTold(ps, ps[p := q])
  {
  }

  lemma RingsAt(ps: seq<Port>, p: int)
    requires PortsOk(ps)
    ensures 0 <= p < |ps| ==> Indices(ps[p].tx)
  {
  }

  lemma SameTold(ps: seq<Port>, ps': seq<Port>)
    requires AllSame(ps, ps')
    ensures StillTold(ps, ps')
  {
    forall p | 0 <= p < |ps| && ToldAt(ps[p])
      ensures ToldAt(ps'[p])
    {
      assert SoftwareSame(ps[p], ps'[p]);
    }
  }

  /** On every port, receive descriptors that are not the NIC's are left alone. */
  ghost predicate AllLeftAlone(ps: seq<Port>, ps': seq<Port>) {
    |ps'| == |ps| && forall p | 0 <= p < |ps| :: RxLeftAlone(ps[p], ps'[p])
  }

  ghost predicate RxLeftAlone(q: Port, q': Port) {
    Indices(q.rx) && Indices(q'.rx) && LeftAlone(q.rx, q'.rx)
  }

  lemma NobodyMoved(st: State)
    requires Inv(st)
    ensures AllLeftAlone(st.ports, st.ports) && AllSame(st.ports, st.ports)
  {
    forall p | 0 <= p < |st.ports|
      ensures RxLeftAlone(st.ports[p], st.ports[p])
    {
      PortAt(st, p);
    }
  }

  lemma AllLeftAloneTrans(ps: seq<Port>, qs: seq<Port>, rs: seq<Port>)
    requires AllLeftAlone(ps, qs) && AllLeftAlone(qs, rs)
    ensures AllLeftAlone(ps, rs)
  {
    forall p | 0 <= p < |ps|
      ensures RxLeftAlone(ps[p], rs[p])
    {
      assert RxLeftAlone(ps[p], qs[p]) && RxLeftAlone(qs[p], rs[p]);
      LeftAloneTrans(ps[p].rx, qs[p].rx, rs[p].rx);
    }
  }

  /** More descriptors at the end, and nothing handed over or taken back. */
  ghost predicate Grows(r: Ring, r': Ring) {
    && Indices(r) && Indices(r') && r'.size == r.size && r'.clean == r.clean && r'.tail == r.tail
    && Window(r) <= Window(r')
  }

  lemma NotGrown(r: Ring)
    requires RingOk(r)
    ensures Grows(r, r)
  {
  }

  lemma AssignGrows(r: Ring, s: int, addr: nat)
    requires RingOk(r) && r.rx && Unused(r) > 0
    ensures Grows(r, Assign(r, s, RxDesc(addr)))
  {
    hide Window, RingOk;
    RxAssignWindow(r, s, addr);
  }

  lemma GrowsTrans(r: Ring, s: Ring, t: Ring)
    requires Grows(r, s) && Grows(s, t)
    ensures Grows(r, t)
  {
    hide Window;
  }

  lemma NicGrows(r: Ring, ps: seq<Port>, ps': seq<Port>, p: nat)
    requires p < |ps| && AllSame(ps, ps') && AllLeftAlone(ps, ps') && Grows(r, ps[p].rx)
    ensures Grows(r, ps'[p].rx)
  {
    hide Window, LeftAlone;
    assert RxLeftAlone(ps[p], ps'[p]) && SoftwareSame(ps[p], ps'[p]);
    SameWindows(ps, ps', p);
  }

  /** The NIC cannot have finished what it has not been told about. */
  lemma Behind(r: Ring, r': Ring)
    requires RingOk(r) && RingOk(r') && Grows(r, r')
    ensures Finished(r') <= Outstanding(r)
  {
  }

  lemma NewOnes(ports: seq<Port>, dma: seq<nat>, bufSize: nat, p: nat, n: nat)
    requires AllPending(ports, dma, bufSize) && p < |ports| && Indices(ports[p].rx) && ports[p].rx.rx
    requires Finished(ports[p].rx) <= n
    ensures var r := ports[p].rx;
            forall k | n <= k < Outstanding(r) ::
              var d := r.desc[At(r.size, r.clean, k)];
              && d.addr == (dma[p] + (bufSize * Window(r)[k]) % 0x1_0000_0000) % 0x1_0000_0000_0000_0000
              && d.word == 0
  {
    var r := ports[p].rx;
    assert PortPending(ports[p], dma[p], bufSize);
    forall k | n <= k < Outstanding(r)
      ensures PendingAt(r, At(r.size, r.clean, k), dma[p], bufSize)
    {
    }
  }

  /** What a transmit descriptor says: command bits and length of the buffer in the lower
      half of the second word, payload length in the upper half. */
  lemma TxDescIs(addr: nat, size: nat)
    ensures TxDesc(addr, size).addr == addr
    ensures size <= MAX_DATA_PER_TXD ==>
              var w := TxDesc(addr, size).word;
              && w % 0x1_0000 == size && w % 0x1_0000_0000 == 0x2B30_0000 + size
              && w / 0x1_0000_0000 == size * 0x4000
  {
    if size <= MAX_DATA_PER_TXD {
      var w := TxDesc(addr, size).word;
      DivModUnique(w, 0x1_0000_0000, size * 0x4000, 0x2B30_0000 + size);
      DivModUnique(w, 0x1_0000, 0x2B30 + 0x1_0000 * (size * 0x4000), size);
    }
  }

  /** The search goes on behind the slot taken, and round at the end of the range. */
  lemma ResumeIs(count: nat, k: nat)
    requires k < count
    ensures Resume(count, k) == (k + 1) % count
  {
  }

  /** The slot that the search on a port comes up with, or -1. */
  ghost function NextSlot(st: State, p: nat): (s: int)
    requires Inv(st) && p < |st.ports|
    ensures s < |st.slots| && (s >= 0 ==> !st.slots[s]) && (s < 0 <==> RangeInFlight(st, p))
  {
    FindFails(st, p);
    var k := Find(st, p);
    if k < 0 then -1 else SlotAt(st, p, k)
  }

  class Driver {
    const count: nat             // slots per port
    const bufSize: nat           // bytes per slot
    const dma: seq<nat>          // DMA address of the slots, per port
    var ports: seq<Port>
    var slots: seq<bool>
    ghost var hand: multiset<int>
    ghost var origin: State      // the state at start-up
    ghost var trace: seq<Action> // every step taken since

    ghost function St(): State
      reads this
    {
      State(ports, slots, count, hand)
    }

    /** The state is that of the recorded run, and every descriptor the NIC may still use
        points to the buffer of its slot. */
    ghost predicate Valid()
      reads this
    {
      && Inv(origin) && Legal(origin, trace) && St() == Exec(origin, trace)
      && |origin.ports| == |ports| && AllPending(ports, dma, bufSize)
    }

    /** The words that the NIC wrote for the frames collected from a port so far. */
    ghost function SoFar(p: nat): seq<nat>
      reads this
      requires Valid() && p < |ports|
    {
      Collected(origin, trace, p)
    }

    constructor (numPorts: nat, count: nat, bufSize: nat, dma: seq<nat>, rxSize: nat, txSize: nat)
      requires 2 <= rxSize < 0x1_0000 && 2 <= txSize < 0x1_0000 && |dma| == numPorts
      ensures Valid() && St() == origin == Start(numPorts, count, rxSize, txSize) && trace == []
      ensures this.count == count && this.bufSize == bufSize && this.dma == dma
      ensures |ports| == numPorts && forall p | 0 <= p < |ports| :: ToldAt(ports[p])
    {
      this.count, this.bufSize, this.dma := count, bufSize, dma;
      var st := Start(numPorts, count, rxSize, txSize);
      ports, slots, hand, origin, trace := st.ports, st.slots, multiset{}, st, [];
      StartInv(numPorts, count, rxSize, txSize);
      StartPending(numPorts, count, rxSize, txSize, dma, bufSize);
    }

    /** A step has just been carried out: it joins the trace. */
    ghost method Did(before: State, a: Action)
      requires Inv(origin) && Legal(origin, trace) && before == Exec(origin, trace)
      requires Enabled(before, a) && St() == Apply(before, a)
      requires |origin.ports| == |before.ports|
      requires AllPending(before.ports, dma, bufSize) && RightAddr(before, a, dma, bufSize)
      modifies this`trace
      ensures Valid() && trace == old(trace) + [a]
    {
      SamePorts(before, a);
      hide Inv, Legal, Exec, Enabled, Apply, AllPending, RightAddr;
      StepPending(before, a, dma, bufSize);
      LegalSnoc(origin, trace, a);
      trace := trace + [a];
    }

    /** A NIC finishes one descriptor, if it owns one. */
    method NicOne(p: nat, w: nat, rx: bool)
      requires Valid()
      modifies this`ports, this`trace
      ensures Valid() && Extends(old(trace), trace, NicOnly)
      ensures AllSame(old(ports), ports) && AllLeftAlone(old(ports), ports)
    {
      hide Legal, Exec, Held, InFlight, Total, PortsOk, LeftAlone;
      ghost var st := St();
      NobodyMoved(st);
      if p < |ports| {
        PortAt(st, p);
        var q := ports[p];
        if rx && q.rx.head != q.rx.tail && Done(true, Desc(0, w)) {
          CompleteLeaves(q.rx, w);
          ports := ports[p := q.(rx := Complete(q.rx, w))];
          Did(st, NicRx(p, w));
        } else if !rx && q.tx.head != q.tx.tail && Done(false, Desc(0, w)) {
          ports := ports[p := q.(tx := Complete(q.tx, w))];
          Did(st, NicTx(p, w));
        }
      }
    }

    /** The NICs make some progress: any number of descriptors, on any ports. */
    method Nic()
      requires Valid()
      modifies this`ports, this`trace
      ensures Valid() && Extends(old(trace), trace, NicOnly)
      ensures AllSame(old(ports), ports) && AllLeftAlone(old(ports), ports)
    {
      NobodyMoved(St());
      hide Valid, Extends, AllLeftAlone;
      var turns: nat := *;
      ExtendsNone(trace, NicOnly);
      while turns > 0
        invariant Valid() && Extends(old(trace), trace, NicOnly)
        invariant AllSame(old(ports), ports) && AllLeftAlone(old(ports), ports)
        decreases turns
      {
        var p: nat, w: nat, rx: bool := *, *, *;
        ghost var mid, before := trace, ports;
        NicOne(p, w, rx);
        AllLeftAloneTrans(old(ports), before, ports);
        ExtendsNic(old(trace), mid, trace, NicOnly);
        turns := turns - 1;
      }
    }

    /** Go round the `count` slots from `off`, beginning at `first`, up to a free one. */
    method Search(off: nat, first: nat) returns (k: int)
      requires off + count <= |slots| && (count > 0 ==> first < count)
      ensures k == FindSlot(slots, off, count, first, 0)
    {
      var next, i := first, 0;
      while i < count
        invariant 0 <= i <= count
        invariant i < count ==> next == Probe(first, count, i)
        invariant FindSlot(slots, off, count, first, 0) == FindSlot(slots, off, count, first, i)
      {
        if !slots[off + next] {
          return next;
        }
        next := next + 1;
        if next == count {
          next := 0;
        }
        i := i + 1;
      }
      k := -1;
    }

    /** Look for a free slot in the port's range, starting where the last search
        stopped, and mark it in flight. Fails exactly when the whole range is. */
    method AssignSlot(p: nat) returns (slot: int)
      requires p < |ports| && |slots| == Total(|ports|, count) && (count > 0 ==> ports[p].slotNext < count)
      modifies this`ports, this`slots
      ensures slot >= -1 && (slot < 0 <==> RangeInFlight(old(St()), p))
      ensures slot < 0 <==> Find(old(St()), p) < 0
      ensures slot < 0 ==> ports == old(ports) && slots == old(slots)
      ensures slot >= 0 ==>
                && slot == SlotAt(old(St()), p, Find(old(St()), p))
                && slots == old(slots)[slot := true]
                && ports == old(ports)[p := old(ports)[p].(slotNext := Resume(count, Find(old(St()), p)))]
      ensures slot >= 0 ==>
                && p * count <= slot < p * count + count <= |slots| == |old(slots)| && !old(slots)[slot]
                && ports[p].slotNext == (slot - p * count + 1) % count
                && var off, next := p * count, old(ports)[p].slotNext;
                   forall s | off <= s < off + count && !old(slots)[s] ::
                     if next <= slot - off then s - off < next || s >= slot else slot <= s < off + next
    {
      hide Total, FindSlot, RangeInFlight;
      assert p * count + count <= |slots| by { InRange(St(), p); }
      FindFails(St(), p);
      var k := Search(p * count, ports[p].slotNext);
      if k < 0 {
        return -1;
      }
      slot := p * count + k;
      FirstFree(slots, p * count, count, ports[p].slotNext);
      ResumeIs(count, k);
      ports := ports[p := ports[p].(slotNext := Resume(count, k))];
      slots := slots[slot := true];
    }

    function DmaAddr(p: nat, s: int): nat
      requires p < |dma|
    {
      (dma[p] + SlotOffset(bufSize, s)) % TWO64
    }

    lemma DmaAddrIs(p: nat, s: int)
      requires p < |dma|
      ensures IsBuffer(DmaAddr(p, s), dma[p], bufSize, s)
    {
    }

    /** Give one free slot to the receive ring, if there is one. */
    method AssignRxOne(p: nat) returns (ok: bool)
      requires Valid() && p < |ports| && Unused(ports[p].rx) > 0
      modifies this`ports, this`slots, this`trace
      ensures Valid() && |ports| == |old(ports)| && forall q | 0 <= q < |ports| && q != p :: ports[q] == old(ports)[q]
      ensures ok <==> Find(old(St()), p) >= 0
      ensures !ok ==> St() == old(St()) && trace == old(trace)
      ensures ok ==> Unused(ports[p].rx) == Unused(old(ports)[p].rx) - 1 && Grows(old(ports)[p].rx, ports[p].rx)
      ensures ok ==> exists addr :: trace == old(trace) + [RxAssign(p, addr)]
    {
      hide Legal, Exec, Held, InFlight, Total, PortsOk, Find, Suspended, SlotAt, AllPending, IsBuffer, Grows;
      ghost var st := St();
      PortAt(st, p);
      var slot := AssignSlot(p);
      if slot < 0 {
        return false;
      }
      var q := ports[p];
      var addr := DmaAddr(p, slot);
      DmaAddrIs(p, slot);
      AssignGrows(q.rx, slot, addr);
      ports := ports[p := q.(rx := Assign(q.rx, slot, RxDesc(addr)))];
      assert ports == st.ports[p := ports[p]];
      Did(st, RxAssign(p, addr));
      ok := true;
    }

    /** Tell the NIC about every receive descriptor written so far. */
    method RingRxDoorbell(p: nat)
      requires Valid() && p < |ports|
      modifies this`ports, this`trace
      ensures Valid() && trace == old(trace) + [RxDoorbell(p)]
      ensures ports == old(ports)[p := old(ports)[p].(rx := Doorbell(old(ports)[p].rx))]
      ensures Find(St(), p) == Find(old(St()), p)
    {
      hide Legal, Exec, Held, InFlight, Total, PortsOk, Suspended;
      ghost var st := St();
      ports := ports[p := ports[p].(rx := Doorbell(ports[p].rx))];
      Did(st, RxDoorbell(p));
    }

    /** Attach slots to the receive ring until it is full or the search finds none. */
    method FillRx(p: nat) returns (total: nat)
      requires Valid() && p < |ports|
      modifies this`ports, this`slots, this`trace
      ensures Valid() && |ports| == |old(ports)| && Extends(old(trace), trace, RxFill(p))
      ensures Unused(ports[p].rx) == 0 || Find(St(), p) < 0
      ensures Unused(ports[p].rx) == Unused(old(ports)[p].rx) - total && Grows(old(ports)[p].rx, ports[p].rx)
      ensures forall q | 0 <= q < |ports| && ToldAt(old(ports)[q]) && (q != p || total == 0) :: ToldAt(ports[q])
    {
      hide Extends, Find, Legal, Exec, Held, InFlight, Total, PortsOk, Suspended, AllLeftAlone, AllPending, Grows, RingOk;
      PortAt(St(), p);
      NotGrown(ports[p].rx);
      UnusedRight(ports[p].rx);
      var max := Unused(ports[p].rx);
      total := 0;
      ExtendsNone(trace, RxFill(p));
      var more := true;
      while more && total < max
        invariant Valid() && Extends(old(trace), trace, RxFill(p))
        invariant 0 <= total <= max && |ports| == |old(ports)| && Unused(ports[p].rx) == max - total
        invariant !more ==> Find(St(), p) < 0
        invariant Grows(old(ports)[p].rx, ports[p].rx)
        invariant forall q | 0 <= q < |ports| && ToldAt(old(ports)[q]) && (q != p || total == 0) :: ToldAt(ports[q])
        decreases more, max - total
      {
        ghost var mid, before := trace, ports;
        Nic();
        SameTold(before, ports);
        NicGrows(old(ports)[p].rx, before, ports, p);
        ExtendsNic(old(trace), mid, trace, RxFill(p));
        mid, before := trace, ports;
        more := AssignRxOne(p);
        if more {
          GrowsTrans(old(ports)[p].rx, before[p].rx, ports[p].rx);
          ExtendsFill(old(trace), mid, trace, p);
          total := total + 1;
        }
      }
    }

    /** Fill the receive ring: on return it is full or the port's slots are all in
        flight, and the NIC has been told about everything in it, if it had been before.
        The descriptors added are blank and point to the buffers of their slots. */
    method AssignRx(p: nat)
      requires Valid() && p < |ports|
      modifies this`ports, this`slots, this`trace
      ensures Valid() && StillTold(old(ports), ports) && Extends(old(trace), trace, RxFill(p))
      ensures Unused(ports[p].rx) == 0 || Find(St(), p) < 0
      ensures Unused(ports[p].rx) < Unused(old(ports)[p].rx) ==> ToldAt(ports[p])
      ensures var was, r := old(ports)[p].rx, ports[p].rx;
              && Indices(was) && Indices(r) && r.clean == was.clean && Window(was) <= Window(r)
              && forall k | Outstanding(was) <= k < Outstanding(r) ::
                   var d := r.desc[At(r.size, r.clean, k)];
                   && d.addr == (dma[p] + (bufSize * Window(r)[k]) % 0x1_0000_0000) % 0x1_0000_0000_0000_0000
                   && d.word == 0
    {
      hide Extends, Find, Legal, Exec, Held, InFlight, Total, PortsOk, Suspended, AllPending, RingOk, Window;
      PortAt(St(), p);
      var total := FillRx(p);
      PortAt(St(), p);
      Behind(old(ports)[p].rx, ports[p].rx);
      if total > 0 {
        DoorbellOk(ports[p].rx);
        ExtendsOne(old(trace), trace, RxDoorbell(p), RxFill(p));
        RingRxDoorbell(p);
      }
      NewOnes(ports, dma, bufSize, p, Outstanding(old(ports)[p].rx));
    }

    /** Hand a slot to the transmit ring, or free it if the ring has no room or the
        packet is too long. */
    method AssignTx(p: nat, slot: int, size: nat)
      requires Valid() && p < |ports| && slot in hand
      modifies this`ports, this`slots, this`hand, this`trace
      ensures Valid() && St() == GiveToTx(old(St()), p, slot, DmaAddr(p, slot), size)
      ensures trace == old(trace) + [TxAssign(p, slot, DmaAddr(p, slot), size)]
      ensures StillTold(old(ports), ports)
      ensures !Refused(old(St()), p, size) ==>
                var r, i := ports[p].tx, old(ports)[p].tx.use;
                && Indices(r) && i < r.size && r.slot[i] == slot
                && r.desc[i].addr == (dma[p] + (bufSize * slot) % 0x1_0000_0000) % 0x1_0000_0000_0000_0000
                && r.desc[i].word % 0x1_0000 == size
                && r.desc[i].word % 0x1_0000_0000 == 0x2B30_0000 + size
                && r.desc[i].word / 0x1_0000_0000 == size * 0x4000
    {
      hide Legal, Exec, Held, InFlight, Total, PortsOk, Suspended, TxDesc;
      ghost var st := St();
      PortAt(st, p);
      InHand(st, slot);
      var q, addr := ports[p], DmaAddr(p, slot);
      TxDescIs(addr, size);
      hand := hand - multiset{slot};
      if Unused(q.tx) == 0 || size > MAX_DATA_PER_TXD {
        slots := slots[slot := false];
        assert ports[p := q] == ports;
      } else {
        ports := ports[p := q.(tx := Assign(q.tx, slot, TxDesc(addr, size)), suspended := q.suspended + 1)];
      }
      Did(st, TxAssign(p, slot, addr, size));
    }

    /** Tell the NIC about the transmit descriptors written since the last time. */
    method XmitTx(p: nat)
      requires Valid() && p < |ports|
      modifies this`ports, this`trace
      ensures Valid() && trace == old(trace) + [TxXmit(p)]
      ensures StillTold(old(ports), ports) && ports[p].suspended == 0
      ensures Posted(ports[p].tx) == Outstanding(ports[p].tx) == Outstanding(old(ports)[p].tx)
    {
      hide Legal, Exec, Held, InFlight, Total, PortsOk;
      ghost var st := St();
      PortAt(st, p);
      DoorbellOk(ports[p].tx);
      if ports[p].suspended > 0 {
        ports := ports[p := ports[p].(tx := Doorbell(ports[p].tx), suspended := 0)];
      } else {
        assert ports[p := ports[p]] == ports;
      }
      Did(st, TxXmit(p));
    }

    /** The caller takes a free slot of the port's range. */
    method TakeSlot(p: nat) returns (slot: int)
      requires Valid() && p < |ports|
      modifies this`ports, this`slots, this`hand, this`trace
      ensures Valid() && StillTold(old(ports), ports)
      ensures slot < 0 <==> RangeInFlight(old(St()), p)
      ensures slot < 0 ==> St() == old(St()) && trace == old(trace)
      ensures slot >= 0 ==> hand == old(hand) + multiset{slot} && trace == old(trace) + [Action.SlotAssign(p)]
      ensures slot == NextSlot(old(St()), p)
      ensures slot >= 0 ==>
                && slots == old(slots)[slot := true] && |ports| == |old(ports)|
                && ports[p].tx == old(ports)[p].tx
    {
      hide Legal, Exec, Held, InFlight, Total, PortsOk, Suspended, Find, SlotAt, RangeInFlight;
      ghost var st := St();
      slot := AssignSlot(p);
      if slot >= 0 {
        hand := hand + multiset{slot};
        Did(st, Action.SlotAssign(p));
      }
    }

    /** The caller gives a slot back. */
    method ReleaseSlot(slot: int)
      requires Valid() && slot in hand
      modifies this`slots, this`hand, this`trace
      ensures Valid() && St() == GiveBack(old(St()), slot) && trace == old(trace) + [SlotRelease(slot)]
    {
      hide Legal, Exec, Held, InFlight, Total, PortsOk, Suspended;
      ghost var st := St();
      InHand(st, slot);
      slots, hand := slots[slot := false], hand - multiset{slot};
      Did(st, SlotRelease(slot));
    }

    /** Take one finished receive descriptor back; its slot goes to the caller. */
    method CleanRxOne(p: nat) returns (packet: Received)
      requires Valid() && p < |ports| && CanClean(ports[p].rx)
      modifies this`ports, this`hand, this`trace
      ensures Valid() && |ports| == |old(ports)| && trace == old(trace) + [RxClean(p)]
      ensures !NicOwns(old(ports)[p].rx, old(ports)[p].rx.clean)
      ensures Window(old(ports)[p].rx) == [packet.slot] + Window(ports[p].rx)
      ensures hand == old(hand) + multiset{packet.slot}
      ensures ports == old(ports)[p := old(ports)[p].(rx := Clean(old(ports)[p].rx))]
      ensures var r := old(ports)[p].rx; packet == Received(r.slot[r.clean], FrameSize(r.desc[r.clean]))
      ensures RxLeftAlone(old(ports)[p], ports[p]) && !NicOwns(ports[p].rx, old(ports)[p].rx.clean)
      ensures SoFar(p) == old(SoFar(p)) + [old(ports)[p].rx.desc[old(ports)[p].rx.clean].word]
    {
      hide Legal, Exec, Held, InFlight, Total, PortsOk, Suspended, RingOk, Window, LeftAlone, NicOwns;
      ghost var st := St();
      PortAt(st, p);
      var r := ports[p].rx;
      CleanOk(r);
      CleanLeaves(r);
      packet := Received(r.slot[r.clean], FrameSize(r.desc[r.clean]));
      ports := ports[p := ports[p].(rx := Clean(r))];
      hand := hand + multiset{packet.slot};
      CollectedSnoc(origin, trace, RxClean(p), p);
      Did(st, RxClean(p));
    }

    /** One turn: the NICs may make progress, then one packet is collected if the
        oldest descriptor is finished. */
    method CleanRxTurn(p: nat) returns (got: bool, packet: Received, ghost word: nat)
      requires Valid() && p < |ports|
      modifies this`ports, this`hand, this`trace
      ensures Valid() && StillTold(old(ports), ports) && Extends(old(trace), trace, RxDrain(p))
      ensures Indices(ports[p].rx) && Indices(old(ports)[p].rx) && RxLeftAlone(old(ports)[p], ports[p])
      ensures ports[p].rx.slot == old(ports)[p].rx.slot
      ensures var r, k := ports[p].rx, old(ports)[p].rx.clean;
              if got then r.clean == Next(r.size, k) && IsFrame(packet, r, k) else r.clean == k
      ensures SoFar(p) == old(SoFar(p)) + (if got then [word] else []) && (got ==> Reports(word, packet.size))
      ensures got ==> && Window(old(ports)[p].rx) == [packet.slot] + Window(ports[p].rx)
                      && hand == old(hand) + multiset{packet.slot}
      ensures !got ==> && Window(old(ports)[p].rx) == Window(ports[p].rx) && hand == old(hand)
                       && !CanClean(ports[p].rx)
    {
      hide Extends, Legal, Exec, Held, InFlight, Total, PortsOk, Suspended, RingOk, Window, Inv, NicOwns, Indices, LeftAlone;
      WindowAt(St(), p);
      ghost var before := ports;
      ExtendsNone(trace, RxDrain(p));
      Nic();
      SameTold(before, ports);
      ghost var mid := ports;
      assert RxLeftAlone(before[p], mid[p]) && SoftwareSame(before[p], mid[p]);
      ExtendsNic(old(trace), old(trace), trace, RxDrain(p));
      WindowAt(St(), p);
      SameWindows(before, ports, p);
      NicsCollectNothing(origin, old(trace), trace, p);
      got, packet, word := CanClean(ports[p].rx), Received(0, 0), 0;
      if got {
        word := ports[p].rx.desc[ports[p].rx.clean].word;
        FrameSizeReports(ports[p].rx.desc[ports[p].rx.clean]);
        ExtendsOne(old(trace), trace, RxClean(p), RxDrain(p));
        packet := CleanRxOne(p);
        WindowAt(St(), p);
        LeftAloneTrans(before[p].rx, mid[p].rx, ports[p].rx);
      }
    }

    /** Collect received packets, oldest first, up to the budget. The slots go to the
        caller, each with the length that the NIC wrote, and the call stops early only at a
        descriptor the NIC has not finished. `words` is what the NIC wrote for these
        frames: the next ones, in the order in which it delivered them. */
    method CleanRx(p: nat, budget: nat) returns (packets: seq<Received>, ghost words: seq<nat>)
      requires Valid() && p < |ports|
      modifies this`ports, this`hand, this`trace
      ensures Valid() && StillTold(old(ports), ports) && Extends(old(trace), trace, RxDrain(p))
      ensures |words| == |packets| && forall i | 0 <= i < |packets| :: Reports(words[i], packets[i].size)
      ensures Indices(origin.ports[p].rx) && Indices(ports[p].rx)
      ensures Words(origin.ports[p].rx) + Delivered(trace, p) == old(SoFar(p)) + words + Words(ports[p].rx)
      ensures Frames(packets, old(ports)[p].rx, ports[p].rx)
      ensures |packets| <= budget && (|packets| < budget ==> !CanClean(ports[p].rx))
      ensures Window(old(ports)[p].rx) == SlotsOf(packets) + Window(ports[p].rx)
      ensures hand == old(hand) + multiset(SlotsOf(packets))
    {
      hide Extends, Window, Inv, Indices, Valid, SlotsOf, Frames, RxLeftAlone, IsFrame, StillTold, SoFar, Reports, Words;
      packets, words := [], [];
      NoneBehind(ports);
      ExtendsNone(trace, RxDrain(p));
      WindowOfValid(p);
      NoFrames(ports[p].rx);
      while |packets| < budget
        invariant Valid() && StillTold(old(ports), ports) && Extends(old(trace), trace, RxDrain(p))
        invariant Frames(packets, old(ports)[p].rx, ports[p].rx)
        invariant |words| == |packets| && SoFar(p) == old(SoFar(p)) + words
        invariant forall i | 0 <= i < |packets| :: Reports(words[i], packets[i].size)
        invariant |packets| <= budget
        invariant Indices(ports[p].rx) && Indices(old(ports)[p].rx)
        invariant Window(old(ports)[p].rx) == SlotsOf(packets) + Window(ports[p].rx)
        invariant hand == old(hand) + multiset(SlotsOf(packets))
        decreases budget - |packets|
      {
        ghost var mid, before := trace, ports;
        var got, packet;
        ghost var word;
        got, packet, word := CleanRxTurn(p);
        ExtendsTrans(old(trace), mid, trace, RxDrain(p));
        SlotsLength(packets);
        ToldTrans(old(ports), before, ports);
        if !got {
          FramesStay(packets, old(ports)[p].rx, before[p], ports[p]);
          InOrder(p);
          return;
        }
        OneLess(packets, packet, old(ports)[p].rx, ports[p].rx);
        MoreFrames(packets, packet, old(ports)[p].rx, before[p], ports[p]);
        SlotsSnoc(packets, packet);
        packets, words := packets + [packet], words + [word];
      }
      InOrder(p);
    }

    /** What was collected and what waits is what the NIC delivered. */
    lemma InOrder(p: nat)
      requires Valid() && p < |ports|
      ensures Indices(origin.ports[p].rx) && Indices(ports[p].rx)
      ensures Words(origin.ports[p].rx) + Delivered(trace, p) == SoFar(p) + Words(ports[p].rx)
    {
      hide Inv, Legal, Exec, Words, Collected, Delivered;
      RunWords(origin, trace, p);
    }

    lemma WindowOfValid(p: nat)
      requires Valid() && p < |ports|
      ensures Indices(ports[p].rx) && Indices(ports[p].tx)
      ensures SlotsOf([]) == [] && Window(ports[p].rx) == [] + Window(ports[p].rx)
      ensures Window(ports[p].tx) == [] + Window(ports[p].tx)
    {
      WindowAt(St(), p);
    }

    /** Take one finished transmit descriptor back and free its slot. */
    method CleanTxOne(p: nat) returns (slot: int)
      requires Valid() && p < |ports| && CanClean(ports[p].tx)
      modifies this`ports, this`slots, this`trace
      ensures Valid() && StillTold(old(ports), ports) && trace == old(trace) + [TxClean(p)]
      ensures !NicOwns(old(ports)[p].tx, old(ports)[p].tx.clean)
      ensures Window(old(ports)[p].tx) == [slot] + Window(ports[p].tx)
      ensures 0 <= slot < |old(slots)| && slots == old(slots)[slot := false]
    {
      hide Legal, Exec, Held, InFlight, Total, PortsOk, Suspended, RingOk, Window, HeldPort;
      ghost var st := St();
      PortAt(st, p);
      var r := ports[p].tx;
      CleanOk(r);
      slot := r.slot[r.clean];
      TxSlotInFlight(st, p);
      ports := ports[p := ports[p].(tx := Clean(r))];
      slots := slots[slot := false];
      Did(st, TxClean(p));
    }

    /** One turn: the NICs may make progress, then one slot is freed if the oldest
        descriptor is finished. */
    method CleanTxTurn(p: nat) returns (got: bool, slot: int)
      requires Valid() && p < |ports|
      modifies this`ports, this`slots, this`trace
      ensures Valid() && StillTold(old(ports), ports) && Extends(old(trace), trace, TxDrain(p))
      ensures Indices(ports[p].tx) && Indices(old(ports)[p].tx)
      ensures if got then && Window(old(ports)[p].tx) == [slot] + Window(ports[p].tx)
                          && 0 <= slot < |old(slots)| && slots == old(slots)[slot := false]
              else Window(old(ports)[p].tx) == Window(ports[p].tx) && slots == old(slots) && !CanClean(ports[p].tx)
    {
      hide Extends, Legal, Exec, Held, InFlight, Total, PortsOk, Suspended, RingOk, Window, Inv, NicOwns, Indices,
           AllLeftAlone, StillTold;
      WindowAt(St(), p);
      ghost var before := ports;
      ExtendsNone(trace, TxDrain(p));
      Nic();
      SameTold(before, ports);
      ExtendsNic(old(trace), old(trace), trace, TxDrain(p));
      WindowAt(St(), p);
      SameWindows(before, ports, p);
      got, slot := CanClean(ports[p].tx), 0;
      if got {
        ghost var mid := ports;
        ExtendsOne(old(trace), trace, TxClean(p), TxDrain(p));
        slot := CleanTxOne(p);
        ToldTrans(before, mid, ports);
        WindowAt(St(), p);
      }
    }

    /** Free the slots of transmitted packets, oldest first, up to the budget; stop
        early only at a descriptor the NIC has not finished. */
    method CleanTx(p: nat, budget: nat) returns (freed: seq<int>)
      requires Valid() && p < |ports|
      modifies this`ports, this`slots, this`trace
      ensures Valid() && StillTold(old(ports), ports) && Extends(old(trace), trace, TxDrain(p))
      ensures |freed| <= budget && (|freed| < budget ==> !CanClean(ports[p].tx))
      ensures Window(old(ports)[p].tx) == freed + Window(ports[p].tx)
      ensures Freed(old(slots), slots, freed)
    {
      hide Extends, Window, Inv, Indices, Valid, StillTold, Freed;
      freed := [];
      NoneBehind(ports);
      ExtendsNone(trace, TxDrain(p));
      WindowOfValid(p);
      NoneFreed(slots);
      while |freed| < budget
        invariant Valid() && StillTold(old(ports), ports) && Extends(old(trace), trace, TxDrain(p))
        invariant |freed| <= budget && Freed(old(slots), slots, freed)
        invariant Indices(ports[p].tx) && Indices(old(ports)[p].tx)
        invariant Window(old(ports)[p].tx) == freed + Window(ports[p].tx)
        decreases budget - |freed|
      {
        ghost var mid, before, was := trace, ports, slots;
        var got, slot := CleanTxTurn(p);
        ExtendsTrans(old(trace), mid, trace, TxDrain(p));
        ToldTrans(old(ports), before, ports);
        if !got {
          return;
        }
        OneMoreFreed(old(slots), was, freed, slot);
        freed := freed + [slot];
      }
    }

    /** A packet from the tunnel device: copied into a fresh slot, which goes to the
        transmit ring, or is freed again if the ring has no room. Nothing happens if the
        packet is too large or the slots are all in flight. Whatever happens, the caller
        ends up holding what it held before. */
    method ForwardTun(p: nat, size: nat) returns (ghost slot: int)
      requires Valid() && p < |ports|
      modifies this`ports, this`slots, this`hand, this`trace
      ensures Valid() && StillTold(old(ports), ports) && hand == old(hand)
      ensures slot < 0 <==> size > bufSize || RangeInFlight(old(St()), p)
      ensures slot < 0 ==> St() == old(St()) && trace == old(trace)
      ensures slot >= 0 ==>
                && slot == NextSlot(old(St()), p)
                && trace == old(trace) + [Action.SlotAssign(p), TxAssign(p, slot, DmaAddr(p, slot), size)]
                && if Refused(old(St()), p, size) then ports[p].tx == old(ports)[p].tx && slots == old(slots)
                   else && Window(ports[p].tx) == Window(old(ports)[p].tx) + [slot]
                        && slots == old(slots)[slot := true]
    {
      hide Legal, Exec, Held, InFlight, Total, PortsOk, Suspended, Inv, RangeInFlight, Window, NextSlot, RingOk, Unused;
      ghost var st := St();
      WindowAt(st, p);
      slot := -1;
      if size > bufSize {
        return;
      }
      var taken := TakeSlot(p);
      slot := taken;
      if taken < 0 {
        return;
      }
      WindowAt(St(), p);
      PortAt(St(), p);
      if !Refused(st, p, size) {
        TxAssignWindow(ports[p].tx, taken, DmaAddr(p, taken), size);
      }
      AssignTx(p, taken, size);
      assert st.slots[taken := true][taken := false] == st.slots;
    }

    /** The packet with the address of its slot's buffer on the output port, whatever
        address it came with. */
    ghost function Addressed(pk: Packet): Packet
      requires pk.verdict < |dma|
    {
      if pk.verdict < 0 then pk
      else pk.(addr := (dma[pk.verdict] + (bufSize * pk.slot) % 0x1_0000_0000) % 0x1_0000_0000_0000_0000)
    }

    ghost function AllAddressed(pks: seq<Packet>): (qs: seq<Packet>)
      requires forall pk | pk in pks :: pk.verdict < |dma|
      ensures |qs| == |pks| && forall i | 0 <= i < |pks| :: qs[i] == Addressed(pks[i])
    {
      seq(|pks|, i requires 0 <= i < |pks| => Addressed(pks[i]))
    }

    /** The forwarding loop over a batch of received packets, as it is written. */
    method ForwardBatch(pks: seq<Packet>)
      requires PortsOk(ports) && |dma| == |ports| && Forwarding.AllFit(St(), pks)
      modifies this`ports, this`slots, this`hand
      ensures Forwarding.AllFit(old(St()), AllAddressed(pks))
      ensures St() == ForwardAll(old(St()), AllAddressed(pks)) && StillTold(old(ports), ports)
    {
      ghost var qs := AllAddressed(pks);
      assert Forwarding.AllFit(St(), qs);
      hide PortsOk, Forward, ForwardAll, Forwarding.AllFit, AllAddressed, Addressed;
      var i := 0;
      ForwardTailStart(St(), qs);
      while i < |pks|
        invariant 0 <= i <= |pks| && |ports| == |dma| && PortsOk(ports) && Forwarding.AllFit(St(), qs[i..])
        invariant ForwardAll(old(St()), qs) == ForwardAll(St(), qs[i..])
        invariant StillTold(old(ports), ports)
      {
        ForwardTail(St(), qs, i);
        ForwardPacket(pks[i]);
        i := i + 1;
      }
      ForwardTailEnd(St(), qs);
    }

    method ForwardPacket(pk: Packet)
      requires PortsOk(ports) && |dma| == |ports| && Fit(St(), pk)
      modifies this`ports, this`slots, this`hand
      ensures Fit(old(St()), Addressed(pk))
      ensures St() == Forward(old(St()), Addressed(pk)) && StillTold(old(ports), ports)
    {
      hide RingOk, Unused, Assign, TxDesc, StillTold, PortsOk, Indices;
      RingsAt(ports, pk.verdict);
      NoneBehind(ports);
      if pk.verdict >= 0 {
        var p := pk.verdict;
        var q, addr := ports[p], DmaAddr(p, pk.slot);
        assert addr == Addressed(pk).addr;
        hide SlotOffset;
        hand := hand - multiset{pk.slot};
        if Unused(q.tx) == 0 || pk.size > MAX_DATA_PER_TXD {
          slots := Release(slots, pk.slot);
          assert ports[p := q] == ports;
        } else {
          var q' := q.(tx := Assign(q.tx, pk.slot, TxDesc(addr, pk.size)), suspended := q.suspended + 1);
          TxOnly(ports, p, q');
          ports := ports[p := q'];
        }
      }
      slots, hand := Release(slots, pk.slot), hand - multiset{pk.slot};
    }
  }

  /** The packet is what the ring says about descriptor k, which is not the NIC's. */
  ghost predicate IsFrame(packet: Received, r: Ring, k: nat) {
    && Indices(r) && k < r.size && !NicOwns(r, k)
    && packet == Received(r.slot[k], FrameSize(r.desc[k]))
  }

  /** The packets are the frames in the descriptors that have been taken back since. */
  ghost predicate Frames(packets: seq<Received>, was: Ring, r: Ring) {
    && Indices(was) && Indices(r) && r.size == was.size && |packets| < r.size && r.slot == was.slot
    && r.clean == At(r.size, was.clean, |packets|)
    && forall i | 0 <= i < |packets| :: IsFrame(packets[i], r, At(r.size, was.clean, i))
  }

  lemma NoFrames(r: Ring)
    requires Indices(r)
    ensures Frames([], r, r)
  {
  }

  lemma FramesStay(packets: seq<Received>, was: Ring, q: Port, q': Port)
    requires Frames(packets, was, q.rx) && RxLeftAlone(q, q') && q'.rx.slot == q.rx.slot && q'.rx.clean == q.rx.clean
    ensures Frames(packets, was, q'.rx)
  {
    hide NicOwns, FrameSize;
    forall i | 0 <= i < |packets|
      ensures IsFrame(packets[i], q'.rx, At(was.size, was.clean, i))
    {
      assert IsFrame(packets[i], q.rx, At(was.size, was.clean, i));
    }
  }

  lemma MoreFrames(packets: seq<Received>, packet: Received, was: Ring, q: Port, q': Port)
    requires Frames(packets, was, q.rx) && RxLeftAlone(q, q') && q'.rx.slot == q.rx.slot && |packets| + 1 < was.size
    requires q'.rx.clean == Next(q'.rx.size, q.rx.clean) && IsFrame(packet, q'.rx, q.rx.clean)
    ensures Frames(packets + [packet], was, q'.rx)
  {
    hide NicOwns, FrameSize;
    forall i | 0 <= i < |packets|
      ensures IsFrame(packets[i], q'.rx, At(was.size, was.clean, i))
    {
      assert IsFrame(packets[i], q.rx, At(was.size, was.clean, i));
    }
  }

  /** No more packets than were outstanding. */
  lemma OneLess(packets: seq<Received>, packet: Received, was: Ring, r: Ring)
    requires Indices(was) && Indices(r) && |SlotsOf(packets)| == |packets|
    requires Window(was) == SlotsOf(packets) + ([packet.slot] + Window(r))
    ensures |packets| + 1 < was.size
  {
  }

  ghost function SlotsOf(packets: seq<Received>): seq<int> {
    seq(|packets|, i requires 0 <= i < |packets| => packets[i].slot)
  }

  /** Exactly these flags have been cleared. */
  ghost predicate Freed(was: seq<bool>, now: seq<bool>, freed: seq<int>) {
    |now| == |was| && forall s | 0 <= s < |now| :: now[s] <==> was[s] && s !in freed
  }

  lemma NoneFreed(slots: seq<bool>)
    ensures Freed(slots, slots, [])
  {
  }

  lemma OneMoreFreed(was: seq<bool>, now: seq<bool>, freed: seq<int>, s: int)
    requires Freed(was, now, freed) && 0 <= s < |now|
    ensures Freed(was, now[s := false], freed + [s])
  {
  }

  lemma NicsCollectNothing(st: State, before: seq<Action>, after: seq<Action>, p: nat)
    requires Inv(st) && Legal(st, after) && p < |st.ports| && Extends(before, after, NicOnly)
    ensures Legal(st, before) && Collected(st, after, p) == Collected(st, before, p)
  {
    hide Inv, Legal, Collected;
    assert after == before + after[|before|..];
    NicCollectsNothing(st, before, after[|before|..], p);
  }

  lemma SlotsLength(packets: seq<Received>)
    ensures |SlotsOf(packets)| == |packets|
  {
  }

  lemma SlotsSnoc(packets: seq<Received>, packet: Received)
    ensures SlotsOf(packets + [packet]) == SlotsOf(packets) + [packet.slot]
  {
  }

  lemma WindowAt(st: State, p: nat)
    requires Inv(st) && p < |st.ports|
    ensures Indices(st.ports[p].rx) && Indices(st.ports[p].tx) && st.ports[p].rx.rx && !st.ports[p].tx.rx
  {
    PortAt(st, p);
  }

  lemma SameWindows(ps: seq<Port>, ps': seq<Port>, p: nat)
    requires AllSame(ps, ps') && p < |ps|
    ensures Indices(ps[p].rx) && Indices(ps'[p].rx) ==> Window(ps'[p].rx) == Window(ps[p].rx)
    ensures Indices(ps[p].tx) && Indices(ps'[p].tx) ==> Window(ps'[p].tx) == Window(ps[p].tx)
  {
    assert SoftwareSame(ps[p], ps'[p]);
  }

  lemma ExtendsFill(before: seq<Action>, mid: seq<Action>, after: seq<Action>, p: nat)
    requires Extends(before, mid, RxFill(p)) && exists addr :: after == mid + [RxAssign(p, addr)]
    ensures Extends(before, after, RxFill(p))
  {
    var addr :| after == mid + [RxAssign(p, addr)];
    ExtendsOne(before, mid, RxAssign(p, addr), RxFill(p));
  }

  lemma InRange(st: State, p: nat)
    requires p < |st.ports| && |st.slots| == Total(|st.ports|, st.count)
    ensures p * st.count + st.count <= |st.slots|
  {
    RangeInside(p, |st.ports|, st.count);
  }

  lemma TxSlotInFlight(st: State, p: nat)
    requires Inv(st) && p < |st.ports| && CanClean(st.ports[p].tx)
    ensures var s := st.ports[p].tx.slot[st.ports[p].tx.clean]; 0 <= s < |st.slots| && st.slots[s]
  {
    hide Held, InFlight, Total, PortsOk, Suspended, HeldPort;
    PortAt(st, p);
    TxCleanPort(st.ports[p], st.count);
    var s := st.ports[p].tx.slot[st.ports[p].tx.clean];
    assert s in HeldPort(st.ports[p]);
    InPort(st, p, s);
    HeldOnce(st, s);
  }

  lemma ForwardTailStart(st: State, pks: seq<Packet>)
    requires PortsOk(st.ports) && Forwarding.AllFit(st, pks)
    ensures pks[0..] == pks && Forwarding.AllFit(st, pks[0..])
  {
  }

  lemma ForwardTail(st: State, pks: seq<Packet>, i: nat)
    requires PortsOk(st.ports) && i < |pks| && Forwarding.AllFit(st, pks[i..])
    ensures Fit(st, pks[i]) && PortsOk(Forward(st, pks[i]).ports) && Forwarding.AllFit(Forward(st, pks[i]), pks[i + 1..])
    ensures ForwardAll(st, pks[i..]) == ForwardAll(Forward(st, pks[i]), pks[i + 1..])
  {
    hide Forward;
    assert pks[i..][0] == pks[i] && pks[i..][1..] == pks[i + 1..];
    AllFitTail(st, st, pks[i..]);
    ForwardPorts(st, pks[i]);
    AllFitTail(st, Forward(st, pks[i]), pks[i..]);
  }

  lemma ForwardTailEnd(st: State, pks: seq<Packet>)
    requires PortsOk(st.ports) && Forwarding.AllFit(st, pks[|pks|..])
    ensures ForwardAll(st, pks[|pks|..]) == st
  {
  }
}
