/** The forwarding loop as a user of the packet slots. For each received packet it
    decides on an output port or on dropping, hands the slot to the transmit ring in
    the first case, and then, in both cases, releases the slot. */
module Forwarding {
  import opened Rings
  import opened Plane

  /** A received packet and the decision on it: an output port, or a negative number
      to drop it. */
  datatype Packet = Packet(slot: int, addr: nat, size: nat, verdict: int)

  ghost predicate Fit(st: State, pk: Packet) {
    pk.verdict < |st.ports|
  }

  ghost predicate AllFit(st: State, pks: seq<Packet>) {
    forall pk | pk in pks :: Fit(st, pk)
  }

  lemma AllFitTail(st: State, st': State, pks: seq<Packet>)
    requires AllFit(st, pks) && pks != [] && |st'.ports| == |st.ports|
    ensures Fit(st, pks[0]) && AllFit(st', pks[1..]) && AllFit(st, pks[1..])
  {
    assert pks[0] in pks;
    forall pk | pk in pks[1..]
      ensures Fit(st, pk) && Fit(st', pk)
    {
      assert pk in pks;
    }
  }

  /** One turn of the loop: the slot goes to the transmit ring unless the packet is
      dropped, and its flag is cleared either way. */
  ghost function Forward(st: State, pk: Packet): State
    requires PortsOk(st.ports) && Fit(st, pk)
  {
    var sent := if pk.verdict < 0 then st else GiveToTx(st, pk.verdict, pk.slot, pk.addr, pk.size);
    GiveBack(sent, pk.slot)
  }

  /** The turn leaves the slot in no ring: dropped, or refused by the ring. */
  ghost predicate Dropped(st: State, pk: Packet)
    requires Fit(st, pk)
  {
    pk.verdict < 0 || Refused(st, pk.verdict, pk.size)
  }

  lemma ForwardPorts(st: State, pk: Packet)
    requires PortsOk(st.ports) && Fit(st, pk)
    ensures PortsOk(Forward(st, pk).ports) && |Forward(st, pk).ports| == |st.ports|
    ensures Dropped(st, pk) ==> Forward(st, pk).ports == st.ports
  {
    hide Window, Done, Assign, RingOk, Unused;
    if !Dropped(st, pk) {
      var p := pk.verdict;
      var r := st.ports[p].tx;
      UnusedRight(r);
      FreshNotDone(pk.addr, pk.size);
      AssignOk(r, pk.slot, TxDesc(pk.addr, pk.size));
    } else if pk.verdict >= 0 {
      assert st.ports[pk.verdict := st.ports[pk.verdict]] == st.ports;
    }
  }

  /** A dropped packet gives its slot back and no more. */
  lemma DropIsRelease(st: State, pk: Packet)
    requires Inv(st) && Fit(st, pk) && pk.slot in st.hand && Dropped(st, pk)
    ensures Forward(st, pk) == GiveBack(st, pk.slot) && Inv(Forward(st, pk))
  {
    hide PortsOk, Held, InFlight, Suspended, Total, Unused;
    InHand(st, pk.slot);
    SlotReleaseKeeps(st, pk.slot);
    if pk.verdict >= 0 {
      assert st.ports[pk.verdict := st.ports[pk.verdict]] == st.ports;
      assert st.hand - multiset{pk.slot} - multiset{pk.slot} == st.hand - multiset{pk.slot};
    }
  }

  /** A slot is in a ring although its flag says that it is free. */
  ghost predicate Leaked(st: State, s: int) {
    && PortsOk(st.ports) && 0 <= s < |st.slots| && !st.slots[s]
    && s in HeldPorts(st.ports, |st.ports|)
  }

  lemma LeakedNotInv(st: State, s: int)
    requires Leaked(st, s)
    ensures !Inv(st)
  {
    hide HeldPorts, PortsOk;
    if Inv(st) {
      assert s in Held(st);
      HeldOnce(st, s);
    }
  }

  /** A packet that the ring takes leaves its slot marked free while the ring still
      refers to it. */
  lemma SentLeaks(st: State, pk: Packet)
    requires Inv(st) && Fit(st, pk) && pk.slot in st.hand && !Dropped(st, pk)
    ensures Leaked(Forward(st, pk), pk.slot)
  {
    hide Window, Done, Assign, RingOk, Unused, InFlight, HeldPorts, PortsOk, Held, Total, Suspended, HeldPort;
    var p, s := pk.verdict, pk.slot;
    InHand(st, s);
    PortAt(st, p);
    UnusedRight(st.ports[p].tx);
    TxAssignPort(st.ports[p], st.count, s, pk.addr, pk.size);
    ForwardPorts(st, pk);
    var st' := Forward(st, pk);
    assert s in HeldPort(st'.ports[p]);
    PortHolds(st'.ports, p, |st'.ports|, s);
  }

  /** Nothing later in the loop takes the slot out of the ring or sets its flag. */
  lemma LeakStays(st: State, pk: Packet, s: int)
    requires Leaked(st, s) && Fit(st, pk)
    ensures Leaked(Forward(st, pk), s)
  {
    hide Window, Done, Assign, RingOk, Unused, HeldPort, HeldPorts;
    ForwardPorts(st, pk);
    if !Dropped(st, pk) {
      var p := pk.verdict;
      TxGains(st.ports[p], pk);
      HeldUpdate(st.ports, p, Forward(st, pk).ports[p], |st.ports|, s);
    }
  }

  lemma TxGains(q: Port, pk: Packet)
    requires RingOk(q.rx) && q.rx.rx && RingOk(q.tx) && !q.tx.rx && Unused(q.tx) != 0 && pk.size <= MAX_DATA_PER_TXD
    ensures var q' := q.(tx := Assign(q.tx, pk.slot, TxDesc(pk.addr, pk.size)), suspended := q.suspended + 1);
            && RingOk(q'.rx) && q'.rx.rx && RingOk(q'.tx) && !q'.tx.rx
            && forall s: int :: HeldPort(q')[s] >= HeldPort(q)[s]
  {
    hide Window, Done, Assign, RingOk, Unused;
    UnusedRight(q.tx);
    FreshNotDone(pk.addr, pk.size);
    AssignOk(q.tx, pk.slot, TxDesc(pk.addr, pk.size));
  }

  /** One turn keeps the invariant exactly when the packet is dropped or refused. */
  lemma ForwardKeepsIff(st: State, pk: Packet)
    requires Inv(st) && Fit(st, pk) && pk.slot in st.hand
    ensures Inv(Forward(st, pk)) <==> Dropped(st, pk)
  {
    hide Forward, Leaked, Held, InFlight, Suspended, Total;
    if Dropped(st, pk) {
      DropIsRelease(st, pk);
    } else {
      SentLeaks(st, pk);
      LeakedNotInv(Forward(st, pk), pk.slot);
    }
  }

  // ----- the whole loop

  ghost function ForwardAll(st: State, pks: seq<Packet>): State
    requires PortsOk(st.ports) && AllFit(st, pks)
    decreases |pks|
  {
    if pks == [] then st
    else
      AllFitTail(st, st, pks);
      ForwardPorts(st, pks[0]);
      AllFitTail(st, Forward(st, pks[0]), pks);
      ForwardAll(Forward(st, pks[0]), pks[1..])
  }

  ghost function Slots(pks: seq<Packet>): multiset<int> {
    if pks == [] then multiset{} else multiset{pks[0].slot} + Slots(pks[1..])
  }

  lemma {:induction false} LeakStaysAll(st: State, pks: seq<Packet>, s: int)
    requires Leaked(st, s) && AllFit(st, pks)
    ensures Leaked(ForwardAll(st, pks), s)
    decreases |pks|
  {
    hide Forward, AllFit, PortsOk, HeldPorts;
    if pks != [] {
      AllFitTail(st, st, pks);
      ForwardPorts(st, pks[0]);
      AllFitTail(st, Forward(st, pks[0]), pks);
      LeakStays(st, pks[0], s);
      LeakStaysAll(Forward(st, pks[0]), pks[1..], s);
    }
  }

  /** The loop over a batch of received packets leaves every slot accounted for
      exactly when no packet of the batch finds room in its output ring: all of them
      are dropped or refused, as judged on the rings before the loop. */
  lemma {:induction false} ForwardAllKeepsIff(st: State, pks: seq<Packet>)
    requires Inv(st) && AllFit(st, pks) && Slots(pks) <= st.hand
    ensures Inv(ForwardAll(st, pks)) <==> AllDropped(st, pks)
    decreases |pks|
  {
    hide Forward, Held, InFlight, PortsOk, Suspended, Total, AllFit, HeldPorts;
    if pks != [] {
      var pk, rest := pks[0], pks[1..];
      AllFitTail(st, st, pks);
      ForwardPorts(st, pk);
      AllFitTail(st, Forward(st, pk), pks);
      assert pk.slot in Slots(pks);
      if Dropped(st, pk) {
        DropIsRelease(st, pk);
        assert Slots(rest) <= st.hand - multiset{pk.slot};
        ForwardAllKeepsIff(Forward(st, pk), rest);
        SameRings(st, Forward(st, pk), rest);
      } else {
        SentLeaks(st, pk);
        LeakStaysAll(Forward(st, pk), rest, pk.slot);
        LeakedNotInv(ForwardAll(st, pks), pk.slot);
      }
    }
  }

  ghost predicate AllDropped(st: State, pks: seq<Packet>)
    requires AllFit(st, pks)
  {
    pks == [] || (AllFitTail(st, st, pks); Dropped(st, pks[0]) && AllDropped(st, pks[1..]))
  }

  lemma {:induction false} AllDroppedMeans(st: State, pks: seq<Packet>)
    requires AllFit(st, pks)
    ensures AllDropped(st, pks) <==> forall i | 0 <= i < |pks| :: Fit(st, pks[i]) && Dropped(st, pks[i])
  {
    if pks != [] {
      AllFitTail(st, st, pks);
      AllDroppedMeans(st, pks[1..]);
    }
  }

  lemma {:induction false} SameRings(st: State, st': State, pks: seq<Packet>)
    requires st'.ports == st.ports && AllFit(st, pks) && AllFit(st', pks)
    ensures AllDropped(st', pks) <==> AllDropped(st, pks)
  {
    if pks != [] {
      AllFitTail(st, st', pks);
      SameRings(st, st', pks[1..]);
    }
  }
}
