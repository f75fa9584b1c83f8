/** Which buffer a descriptor points to, and what the NIC reports about a frame. */
module Buffers {
  import opened Arithmetic
  import opened Common
  import opened Rings
  import opened Plane
  import opened PlaneRuns

  // ----- the buffers of the slots

  /** Where a slot's buffer starts, in bytes from the first one: computed in 32 bits. */
  function SlotOffset(bufSize: nat, s: int): nat {
    (bufSize * s) % TWO32
  }

  /** The buffers of two slots do not overlap. */
  predicate Apart(bufSize: nat, s: nat, t: nat) {
    || SlotOffset(bufSize, s) + bufSize <= SlotOffset(bufSize, t)
    || SlotOffset(bufSize, t) + bufSize <= SlotOffset(bufSize, s)
  }

  /** The buffers of n slots are apart exactly if the last one starts below 2^32. */
  lemma BuffersApartIff(bufSize: nat, n: nat)
    requires 0 < bufSize < TWO32 && n > 0
    ensures (forall s: nat, t: nat | s < t < n :: Apart(bufSize, s, t)) <==> bufSize * (n - 1) < TWO32
  {
    if bufSize * (n - 1) < TWO32 {
      forall s: nat, t: nat | s < t < n
        ensures Apart(bufSize, s, t)
      {
        Ahead(bufSize, s, t, n);
      }
    } else {
      var q: int := (TWO32 + bufSize - 1) / bufSize;
      DivModEq(TWO32 + bufSize - 1, bufSize);
      if q > n - 1 {
        MulMono(bufSize, n, q);
        MulSum(bufSize, n - 1, 1);
      }
      WrapsTo(bufSize, q);
    }
  }

  lemma Ahead(bufSize: nat, s: nat, t: nat, n: nat)
    requires s < t < n && bufSize * (n - 1) < TWO32
    ensures SlotOffset(bufSize, s) + bufSize <= SlotOffset(bufSize, t)
  {
    MulMono(bufSize, t, n - 1);
    MulMono(bufSize, s + 1, t);
    MulSum(bufSize, s, 1);
    MulMono(bufSize, 0, s);
    var x: int, y: int := bufSize * s, bufSize * t;
    assert x % TWO32 == x && y % TWO32 == y;
  }

  /** A slot whose buffer would start just beyond 2^32 shares bytes with the first one. */
  lemma WrapsTo(bufSize: nat, t: nat)
    requires 0 < bufSize < TWO32 && TWO32 <= bufSize * t < TWO32 + bufSize
    ensures t > 0 && !Apart(bufSize, 0, t)
  {
    var y: int := bufSize * t;
    assert y % TWO32 == y - TWO32;
  }

  // ----- descriptors point to the buffers of their slots

  /** The address of slot s's buffer, for a port whose buffers start at `base`. */
  ghost predicate IsBuffer(addr: nat, base: nat, bufSize: nat, s: int) {
    addr == (base + (bufSize * s) % 0x1_0000_0000) % 0x1_0000_0000_0000_0000
  }

  /** Every descriptor that the NIC has not finished points to the buffer of the slot
      attached to it; a receive descriptor is blank otherwise. */
  ghost predicate Pending(r: Ring, base: nat, bufSize: nat)
    requires Indices(r)
  {
    forall k | Finished(r) <= k < Outstanding(r) :: PendingAt(r, At(r.size, r.clean, k), base, bufSize)
  }

  ghost predicate PendingAt(r: Ring, i: nat, base: nat, bufSize: nat)
    requires Indices(r) && i < r.size
  {
    IsBuffer(r.desc[i].addr, base, bufSize, r.slot[i]) && (r.rx ==> r.desc[i].word == 0)
  }

  lemma AssignPending(r: Ring, s: int, d: Desc, base: nat, bufSize: nat)
    requires RingOk(r) && Unused(r) > 0 && Pending(r, base, bufSize)
    requires IsBuffer(d.addr, base, bufSize, s) && (r.rx ==> d.word == 0)
    ensures Pending(Assign(r, s, d), base, bufSize)
  {
    hide Done, IsBuffer;
    var q := Assign(r, s, d);
    assert At(r.size, r.clean, Outstanding(r)) == r.use;
    forall k | Finished(q) <= k < Outstanding(q)
      ensures PendingAt(q, At(q.size, q.clean, k), base, bufSize)
    {
      if k < Outstanding(r) {
        assert At(r.size, r.clean, k) != r.use && PendingAt(r, At(r.size, r.clean, k), base, bufSize);
      }
    }
  }

  lemma CompletePending(r: Ring, w: nat, base: nat, bufSize: nat)
    requires RingOk(r) && r.head != r.tail && Pending(r, base, bufSize)
    ensures Pending(Complete(r, w), base, bufSize)
  {
    hide Done, IsBuffer;
    var q := Complete(r, w);
    forall k | Finished(q) <= k < Outstanding(q)
      ensures PendingAt(q, At(q.size, q.clean, k), base, bufSize)
    {
      assert At(r.size, r.clean, k) != r.head && PendingAt(r, At(r.size, r.clean, k), base, bufSize);
    }
  }

  lemma CleanPending(r: Ring, base: nat, bufSize: nat)
    requires RingOk(r) && Finished(r) > 0 && Pending(r, base, bufSize)
    ensures Pending(Clean(r), base, bufSize)
  {
    hide Done, IsBuffer;
    var q := Clean(r);
    forall k | Finished(q) <= k < Outstanding(q)
      ensures PendingAt(q, At(q.size, q.clean, k), base, bufSize)
    {
      assert At(q.size, q.clean, k) == At(r.size, r.clean, k + 1);
      assert PendingAt(r, At(r.size, r.clean, k + 1), base, bufSize);
    }
  }

  lemma DoorbellPending(r: Ring, base: nat, bufSize: nat)
    requires Indices(r) && Pending(r, base, bufSize)
    ensures Pending(Doorbell(r), base, bufSize)
  {
    hide IsBuffer;
    var q := Doorbell(r);
    forall k | Finished(q) <= k < Outstanding(q)
      ensures PendingAt(q, At(q.size, q.clean, k), base, bufSize)
    {
      assert PendingAt(r, At(r.size, r.clean, k), base, bufSize);
    }
  }

  ghost predicate PortPending(q: Port, base: nat, bufSize: nat) {
    Indices(q.rx) && Indices(q.tx) && Pending(q.rx, base, bufSize) && Pending(q.tx, base, bufSize)
  }

  ghost predicate AllPending(ports: seq<Port>, dma: seq<nat>, bufSize: nat)
    ensures AllPending(ports, dma, bufSize) ==> |dma| == |ports|
  {
    |dma| == |ports| && forall p | 0 <= p < |ports| :: PortPending(ports[p], dma[p], bufSize)
  }

  /** A step that writes a descriptor writes the address of its slot's buffer. */
  ghost predicate RightAddr(st: State, a: Action, dma: seq<nat>, bufSize: nat)
    requires Inv(st) && Enabled(st, a) && |dma| == |st.ports|
  {
    match a
    case RxAssign(p, addr) => IsBuffer(addr, dma[p], bufSize, SlotAt(st, p, Find(st, p)))
    case TxAssign(p, s, addr, _) => IsBuffer(addr, dma[p], bufSize, s)
    case _ => true
  }

  /** Every step keeps that. */
  lemma StepPending(st: State, a: Action, dma: seq<nat>, bufSize: nat)
    requires Inv(st) && Enabled(st, a) && AllPending(st.ports, dma, bufSize) && RightAddr(st, a, dma, bufSize)
    ensures AllPending(Apply(st, a).ports, dma, bufSize)
  {
    hide Inv, Pending, IsBuffer, Unused, Find, SlotAt, Assign, Clean, Complete, Doorbell, CanClean, Done, RxDesc, TxDesc,
         Release, RingOk, Indices;
    if !a.SlotRelease? {
      var p := a.port;
      PortAt(st, p);
      assert PortPending(st.ports[p], dma[p], bufSize);
      PortStep(st, a, dma[p], bufSize);
      forall q | 0 <= q < |st.ports|
        ensures PortPending(Apply(st, a).ports[q], dma[q], bufSize)
      {
        assert q != p ==> PortPending(st.ports[q], dma[q], bufSize);
      }
    }
  }

  lemma PortStep(st: State, a: Action, base: nat, bufSize: nat)
    requires Inv(st) && Enabled(st, a) && !a.SlotRelease?
    requires PortPending(st.ports[a.port], base, bufSize)
    requires a.RxAssign? ==> IsBuffer(a.addr, base, bufSize, SlotAt(st, a.port, Find(st, a.port)))
    requires a.TxAssign? ==> IsBuffer(a.addr, base, bufSize, a.slot)
    ensures var st' := Apply(st, a);
            |st'.ports| == |st.ports| && PortPending(st'.ports[a.port], base, bufSize)
            && forall q | 0 <= q < |st.ports| && q != a.port :: st'.ports[q] == st.ports[q]
  {
    hide Held, InFlight, PortsOk, Suspended, Total, Pending, IsBuffer, Unused, Find, SlotAt, CanClean, Done, Release,
         RingOk, Indices, Assign, Clean, Complete, Doorbell, Finished;
    var q := st.ports[a.port];
    PortAt(st, a.port);
    match a
    case RxAssign(p, addr) =>
      var s := SlotAt(st, p, Find(st, p));
      RxAssignWindow(q.rx, s, addr);
      AssignPending(q.rx, s, RxDesc(addr), base, bufSize);
    case RxDoorbell(_) => DoorbellOk(q.rx); DoorbellPending(q.rx, base, bufSize);
    case RxClean(_) => CleanOk(q.rx); CleanPending(q.rx, base, bufSize);
    case TxAssign(_, s, addr, size) =>
      if !Refused(st, a.port, size) {
        UnusedRight(q.tx);
        TxAssignWindow(q.tx, s, addr, size);
        AssignPending(q.tx, s, TxDesc(addr, size), base, bufSize);
      }
    case TxXmit(_) => DoorbellOk(q.tx); DoorbellPending(q.tx, base, bufSize);
    case TxClean(_) => CleanOk(q.tx); CleanPending(q.tx, base, bufSize);
    case SlotAssign(_) =>
    case NicRx(_, w) => CompleteRx(q.rx, w); CompletePending(q.rx, w, base, bufSize);
    case NicTx(_, w) => CompleteTx(q.tx, w); CompletePending(q.tx, w, base, bufSize);
  }

  lemma StartPending(ports: nat, count: nat, rxSize: nat, txSize: nat, dma: seq<nat>, bufSize: nat)
    requires 2 <= rxSize < 0x1_0000 && 2 <= txSize < 0x1_0000 && |dma| == ports
    ensures AllPending(Start(ports, count, rxSize, txSize).ports, dma, bufSize)
  {
  }

  // ----- frames, from the NIC to the caller

  /** The second word of a finished receive descriptor: status in the lower half, then the
      length of the frame and the VLAN tag. */
  function NicWord(status: nat, len: nat, vlan: nat): nat {
    status + 0x1_0000_0000 * (len + 0x1_0000 * vlan)
  }

  /** The done bit is bit 0 of the status: the lower half of the second word on receive, the
      upper half on transmit. */
  lemma DoneBit(addr: nat, status: nat, len: nat, vlan: nat, other: nat)
    requires status < 0x1_0000_0000 && other < 0x1_0000_0000
    ensures Done(true, Desc(addr, NicWord(status, len, vlan))) <==> status % 2 == 1
    ensures Done(false, Desc(addr, other + 0x1_0000_0000 * status)) <==> status % 2 == 1
  {
    DivModUnique(other + 0x1_0000_0000 * status, TWO32, status, other);
  }

  /** The length that a word reports, whatever else it says. */
  ghost predicate Reports(word: nat, size: nat) {
    forall status: nat, len: nat, vlan: nat
      | status < 0x1_0000_0000 && len < 0x1_0000 && word == NicWord(status, len, vlan) :: size == len
  }

  /** The length of a received frame, as the driver reads it. */
  function FrameSize(d: Desc): nat {
    (d.word / TWO32) % 0x1_0000
  }

  lemma FrameSizeReports(d: Desc)
    ensures Reports(d.word, FrameSize(d))
  {
    forall status: nat, len: nat, vlan: nat
      | status < 0x1_0000_0000 && len < 0x1_0000 && d.word == NicWord(status, len, vlan)
      ensures FrameSize(d) == len
    {
      DivModUnique(d.word, TWO32, len + 0x1_0000 * vlan, status);
      DivModUnique(len + 0x1_0000 * vlan, 0x1_0000, vlan, len);
    }
  }

  /** What the NIC has written for the frames that wait to be collected, oldest first. */
  ghost function Words(r: Ring): (w: seq<nat>)
    requires Indices(r)
    ensures |w| == Finished(r)
  {
    seq(Finished(r), k requires 0 <= k < Finished(r) => r.desc[At(r.size, r.clean, k)].word)
  }

  lemma CompleteWords(r: Ring, w: nat)
    requires RingOk(r) && r.head != r.tail
    ensures Indices(Complete(r, w)) && Words(Complete(r, w)) == Words(r) + [w]
  {
    hide Done;
    assert At(r.size, r.clean, Finished(r)) == r.head;
    var q := Complete(r, w);
    forall k | 0 <= k < Finished(r)
      ensures Words(q)[k] == Words(r)[k]
    {
      assert At(r.size, r.clean, k) != r.head;
    }
  }

  lemma CleanWords(r: Ring)
    requires RingOk(r) && Finished(r) > 0
    ensures Indices(Clean(r)) && Words(r) == [r.desc[r.clean].word] + Words(Clean(r))
  {
    hide Done;
    var q := Clean(r);
    assert At(r.size, r.clean, 0) == r.clean;
    forall k | 0 <= k < Finished(q)
      ensures Words(q)[k] == Words(r)[k + 1]
    {
      assert At(q.size, q.clean, k) == At(r.size, r.clean, k + 1);
    }
  }

  lemma AssignWords(r: Ring, s: int, d: Desc)
    requires RingOk(r) && Unused(r) > 0
    ensures Indices(Assign(r, s, d)) && Words(Assign(r, s, d)) == Words(r)
  {
    hide Done;
    var q := Assign(r, s, d);
    forall k | 0 <= k < Finished(r)
      ensures Words(q)[k] == Words(r)[k]
    {
      assert At(r.size, r.clean, k) != r.use;
    }
  }

  lemma DoorbellWords(r: Ring)
    requires Indices(r)
    ensures Indices(Doorbell(r)) && Words(Doorbell(r)) == Words(r)
  {
  }

  /** The word a step delivers on port p, if any. */
  ghost function Delivering(a: Action, p: nat): seq<nat> {
    if a.NicRx? && a.port == p then [a.word] else []
  }

  /** The word of the frame a step collects from port p, if any. */
  ghost function Collecting(st: State, a: Action, p: nat): seq<nat>
    requires Inv(st) && Enabled(st, a) && p < |st.ports|
  {
    if a == RxClean(p) then [st.ports[p].rx.desc[st.ports[p].rx.clean].word] else []
  }

  lemma StepWords(st: State, a: Action, p: nat)
    requires Inv(st) && Enabled(st, a) && p < |st.ports|
    ensures var st' := Apply(st, a);
            && |st'.ports| == |st.ports| && Indices(st.ports[p].rx) && Indices(st'.ports[p].rx)
            && Words(st.ports[p].rx) + Delivering(a, p) == Collecting(st, a, p) + Words(st'.ports[p].rx)
  {
    hide Words, RingOk, Held, InFlight, SlotAt, Find, PortsOk, Unused, Done, Assign, Clean, Complete, Doorbell, Suspended,
         Indices, Release, RxDesc, TxDesc, Total, Finished, CanClean;
    PortAt(st, p);
    var r := st.ports[p].rx;
    if !WorksOn(a, p, true) {
      OtherRing(st, a, p, true);
    } else {
      match a
      case RxAssign(_, addr) => AssignWords(r, SlotAt(st, p, Find(st, p)), RxDesc(addr));
      case RxClean(_) =>
        CanCleanIff(r);
        CleanWords(r);
      case NicRx(_, w) => CompleteWords(r, w);
      case RxDoorbell(_) => DoorbellWords(r);
    }
  }

  ghost function Delivered(trace: seq<Action>, p: nat): seq<nat> {
    if trace == [] then [] else Delivered(trace[..|trace| - 1], p) + Delivering(trace[|trace| - 1], p)
  }

  /** The words of the frames collected from port p over a run. */
  ghost function Collected(st: State, trace: seq<Action>, p: nat): seq<nat>
    requires Inv(st) && Legal(st, trace) && p < |st.ports|
    decreases |trace|
  {
    if trace == [] then []
    else
      SamePorts(st, trace[0]);
      StepKeeps(st, trace[0]);
      Collecting(st, trace[0], p) + Collected(Apply(st, trace[0]), trace[1..], p)
  }

  lemma SamePorts(st: State, a: Action)
    requires Inv(st) && Enabled(st, a)
    ensures |Apply(st, a).ports| == |st.ports|
  {
    hide RingOk, Held, InFlight, SlotAt, Find, PortsOk, Unused, Done, Assign, Clean, Complete, Doorbell, Suspended,
         Indices, Release, RxDesc, TxDesc, Total, CanClean;
  }

  lemma {:induction false} DeliveredCons(trace: seq<Action>, p: nat)
    requires trace != []
    ensures Delivered(trace, p) == Delivering(trace[0], p) + Delivered(trace[1..], p)
    decreases |trace|
  {
    hide Delivering;
    var n := |trace| - 1;
    if n == 0 {
      assert trace[..0] == [] && trace[1..] == [];
    } else {
      var front, rest := trace[..n], trace[1..];
      DeliveredCons(front, p);
      assert front[0] == trace[0] && front[1..] == rest[..n - 1] && rest[n - 1] == trace[n];
      var a, b, c := Delivering(trace[0], p), Delivered(front[1..], p), Delivering(trace[n], p);
      assert Delivered(front, p) == a + b && Delivered(rest, p) == b + c;
      assert (a + b) + c == a + (b + c);
    }
  }

  /** Over every run, the frames collected and those still waiting are those that were
      waiting and those the NIC has delivered since, in the same order. */
  lemma {:induction false} RunWords(st: State, trace: seq<Action>, p: nat)
    requires Inv(st) && Legal(st, trace) && p < |st.ports|
    ensures var end := Exec(st, trace);
            && |end.ports| == |st.ports| && Indices(st.ports[p].rx) && Indices(end.ports[p].rx)
            && Words(st.ports[p].rx) + Delivered(trace, p) == Collected(st, trace, p) + Words(end.ports[p].rx)
    decreases |trace|
  {
    hide Words, Inv, Enabled, Apply, Indices, Collecting, Delivering;
    if trace == [] {
      StillThere(st, p);
    } else {
      StepWords(st, trace[0], p);
      StepKeeps(st, trace[0]);
      RunWords(Apply(st, trace[0]), trace[1..], p);
      DeliveredCons(trace, p);
      var next := Apply(st, trace[0]);
      Chain(Words(st.ports[p].rx), Delivering(trace[0], p), Delivered(trace[1..], p), Collecting(st, trace[0], p),
            Words(next.ports[p].rx), Collected(next, trace[1..], p), Words(Exec(st, trace).ports[p].rx));
    }
  }

  lemma Chain(w: seq<nat>, d: seq<nat>, ds: seq<nat>, c: seq<nat>, v: seq<nat>, cs: seq<nat>, u: seq<nat>)
    requires w + d == c + v && v + ds == cs + u
    ensures w + (d + ds) == (c + cs) + u
  {
    assert w + (d + ds) == (w + d) + ds == (c + v) + ds == c + (v + ds) == c + (cs + u);
  }

  lemma StillThere(st: State, p: nat)
    requires Inv(st) && p < |st.ports|
    ensures Indices(st.ports[p].rx)
  {
    PortAt(st, p);
  }

  lemma {:induction false} CollectedSnoc(st: State, trace: seq<Action>, a: Action, p: nat)
    requires Inv(st) && Legal(st, trace) && p < |st.ports| && Enabled(Exec(st, trace), a)
    ensures Legal(st, trace + [a]) && p < |Exec(st, trace).ports|
    ensures Collected(st, trace + [a], p) == Collected(st, trace, p) + Collecting(Exec(st, trace), a, p)
    decreases |trace|
  {
    hide Inv, Enabled, Apply, Collecting;
    LegalSnoc(st, trace, a);
    if trace == [] {
      assert [] + [a] == [a] && [a][1..] == [];
    } else {
      StepKeeps(st, trace[0]);
      SamePorts(st, trace[0]);
      CollectedSnoc(Apply(st, trace[0]), trace[1..], a, p);
      assert (trace + [a])[0] == trace[0] && (trace + [a])[1..] == trace[1..] + [a];
    }
  }

  lemma {:induction false} LegalInit(st: State, trace: seq<Action>, a: Action)
    requires Inv(st) && Legal(st, trace + [a])
    ensures Legal(st, trace) && Enabled(Exec(st, trace), a)
    decreases |trace|
  {
    hide Inv, Enabled, Apply;
    assert (trace + [a])[0] == if trace == [] then a else trace[0];
    if trace != [] {
      assert (trace + [a])[1..] == trace[1..] + [a];
      StepKeeps(st, trace[0]);
      LegalInit(Apply(st, trace[0]), trace[1..], a);
    }
  }

  /** Steps of the NICs collect nothing. */
  lemma {:induction false} NicCollectsNothing(st: State, trace: seq<Action>, more: seq<Action>, p: nat)
    requires Inv(st) && Legal(st, trace + more) && p < |st.ports| && forall a | a in more :: a.NicRx? || a.NicTx?
    ensures Legal(st, trace) && Collected(st, trace + more, p) == Collected(st, trace, p)
    decreases |more|
  {
    hide Inv, Enabled, Apply, Legal, Exec, Collected;
    if more == [] {
      assert trace + more == trace;
    } else {
      var n := |more| - 1;
      var init, a := more[..n], more[n];
      assert trace + more == (trace + init) + [a];
      assert a in more && forall x | x in init :: x in more;
      assert a != RxClean(p);
      LegalInit(st, trace + init, a);
      CollectedSnoc(st, trace + init, a, p);
      NicCollectsNothing(st, trace, init, p);
      assert Collecting(Exec(st, trace + init), a, p) == [];
    }
  }
}
