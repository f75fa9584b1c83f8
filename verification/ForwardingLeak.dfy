/** What comes of a slot that is marked free while a transmit ring still refers to it: a
    receive ring can be given the same slot. */
module ForwardingLeak {
  import opened Rings
  import opened Plane
  import opened PlaneRuns
  import opened Forwarding

  /** The receive ring of a port can be given a slot. */
  ghost predicate CanFill(st: State, p: nat) {
    && p < |st.ports| && Indices(st.ports[p].rx) && |st.slots| == Total(|st.ports|, st.count)
    && (st.count > 0 ==> st.ports[p].slotNext < st.count) && Unused(st.ports[p].rx) > 0 && Find(st, p) >= 0
  }

  /** A slot is in a receive ring and in a transmit ring. */
  ghost predicate InTwoRings(st: State, s: int, p: nat, q: nat) {
    && p < |st.ports| && q < |st.ports| && Indices(st.ports[p].rx) && Indices(st.ports[q].tx)
    && s in Window(st.ports[p].rx) && s in Window(st.ports[q].tx)
  }

  /** If the search on a port comes upon the slot of a packet that has just been sent, the
      next filling of the receive ring leaves it in two rings. */
  lemma SentThenReused(st: State, pk: Packet, p: nat, addr: nat)
    requires Inv(st) && Fit(st, pk) && pk.slot in st.hand && !Dropped(st, pk)
    requires var now := Forward(st, pk); CanFill(now, p) && SlotAt(now, p, Find(now, p)) == pk.slot
    ensures InTwoRings(GiveToRx(Forward(st, pk), p, addr), pk.slot, p, pk.verdict)
  {
    hide Window, RingOk, Held, InFlight, PortsOk, Unused, Assign, Suspended, Total, Find, SlotAt, Done;
    var v, now := pk.verdict, Forward(st, pk);
    PortAt(st, v);
    TxAssignWindow(st.ports[v].tx, pk.slot, pk.addr, pk.size);
    ForwardPorts(st, pk);
    RingsOf(now, p);
    RxAssignWindow(now.ports[p].rx, pk.slot, addr);
    RingsOf(now, v);
  }

  lemma RingsOf(st: State, p: nat)
    requires PortsOk(st.ports) && p < |st.ports|
    ensures RingOk(st.ports[p].rx) && st.ports[p].rx.rx && RingOk(st.ports[p].tx) && !st.ports[p].tx.rx
  {
  }

  // ----- a run that ends there: one port, one slot, rings of two descriptors

  function Filled(word: nat): Ring {
    Ring(true, 2, 1, 0, 0, 0, [0, 0], [Desc(0, word), Desc(0, 0)])
  }

  function Stage(rx: Ring, slot: bool, hand: multiset<int>): State {
    State([Port(rx, EmptyRing(false, 2), 0, 0)], [slot], 1, hand)
  }

  /** Set up; the ring filled; the NIC told; a frame delivered; the frame collected. */
  function At(n: nat): State {
    if n == 0 then Stage(EmptyRing(true, 2), false, multiset{})
    else if n == 1 then Stage(Filled(0), true, multiset{})
    else if n == 2 then Stage(Filled(0).(tail := 1), true, multiset{})
    else if n == 3 then Stage(Filled(1).(head := 1, tail := 1), true, multiset{})
    else Stage(Filled(1).(head := 1, tail := 1, clean := 1), true, multiset{0})
  }

  function Act(n: nat): Action {
    if n == 0 then RxAssign(0, 0) else if n == 1 then RxDoorbell(0) else if n == 2 then NicRx(0, 1) else RxClean(0)
  }

  lemma SetUp()
    ensures Start(1, 1, 2, 2) == At(0)
  {
  }

  lemma Assigned()
    requires Inv(At(0))
    ensures Enabled(At(0), Act(0)) && Apply(At(0), Act(0)) == At(1)
  {
    hide Inv, Held, InFlight, PortsOk;
    var st := At(0);
    assert FindSlot(st.slots, 0, 1, 0, 0) == 0;
    assert Find(st, 0) == 0 && SlotAt(st, 0, 0) == 0;
    assert Rings.Assign(st.ports[0].rx, 0, RxDesc(0)) == Filled(0);
    assert st.slots[0 := true] == [true];
  }

  lemma Told()
    requires Inv(At(1))
    ensures Enabled(At(1), Act(1)) && Apply(At(1), Act(1)) == At(2)
  {
    hide Inv;
  }

  lemma Delivered()
    requires Inv(At(2))
    ensures Enabled(At(2), Act(2)) && Apply(At(2), Act(2)) == At(3)
  {
    hide Inv;
    assert Complete(Filled(0).(tail := 1), 1) == Filled(1).(head := 1, tail := 1);
  }

  lemma Collected()
    requires Inv(At(3))
    ensures Enabled(At(3), Act(3)) && Apply(At(3), Act(3)) == At(4)
  {
    hide Inv;
  }

  ghost function Steps(n: nat): seq<Action> {
    if n == 0 then [] else Steps(n - 1) + [Act(n - 1)]
  }

  /** The stages are those of a run. */
  lemma {:induction false} Reached(n: nat)
    requires n <= 4
    ensures Inv(At(0)) && Legal(At(0), Steps(n)) && Exec(At(0), Steps(n)) == At(n) && Inv(At(n))
  {
    hide Inv, Legal, Exec, Enabled, Apply, At, Act, Start;
    if n == 0 {
      SetUp();
      StartInv(1, 1, 2, 2);
      NoSteps(At(0));
    } else {
      Reached(n - 1);
      OneStep(n - 1);
      LegalSnoc(At(0), Steps(n - 1), Act(n - 1));
    }
  }

  lemma OneStep(n: nat)
    requires n < 4 && Inv(At(n))
    ensures Enabled(At(n), Act(n)) && Apply(At(n), Act(n)) == At(n + 1)
  {
    hide Inv, Enabled, Apply, At, Act;
    match n
    case 0 => Assigned();
    case 1 => Told();
    case 2 => Delivered();
    case _ => Collected();
  }

  lemma NoSteps(st: State)
    requires Inv(st)
    ensures Legal(st, []) && Exec(st, []) == st && Steps(0) == []
  {
  }

  const PACKET: Packet := Packet(0, 0, 60, 0)

  lemma Sent()
    requires PortsOk(At(4).ports)
    ensures Fit(At(4), PACKET) && 0 in At(4).hand && !Dropped(At(4), PACKET)
    ensures var now := Forward(At(4), PACKET); CanFill(now, 0) && Find(now, 0) == 0 && SlotAt(now, 0, 0) == 0
  {
    hide PortsOk;
    var now := Forward(At(4), PACKET);
    assert now.slots == [false];
    assert FindSlot(now.slots, 0, 1, 0, 0) == 0;
  }

  lemma OneTurn(st: State, pk: Packet)
    requires PortsOk(st.ports) && Fit(st, pk)
    ensures AllFit(st, [pk]) && ForwardAll(st, [pk]) == Forward(st, pk) && Slots([pk]) == multiset{pk.slot}
  {
    hide Forward, PortsOk;
    assert [pk][1..] == [];
    ForwardPorts(st, pk);
  }

  /** A run from the start after which the packet in hand is forwarded: its slot is then
      marked free although the transmit ring holds it, and the next filling of the receive
      ring takes it again. */
  lemma RunLeaks()
    ensures Start(1, 1, 2, 2) == At(0) && Inv(At(0)) && Legal(At(0), Steps(4)) && Exec(At(0), Steps(4)) == At(4)
    ensures Fit(At(4), PACKET) && AllFit(At(4), [PACKET]) && Slots([PACKET]) <= At(4).hand
    ensures PortsOk(At(4).ports) && Leaked(ForwardAll(At(4), [PACKET]), 0) && !Inv(ForwardAll(At(4), [PACKET]))
    ensures CanFill(Forward(At(4), PACKET), 0) && InTwoRings(GiveToRx(Forward(At(4), PACKET), 0, 0), 0, 0, 0)
  {
    SetUp();
    Reached(4);
    assert PortsOk(At(4).ports);
    Sent();
    hide Inv, Legal, Exec, Leaked, Window, Find, SlotAt, PortsOk, Unused, RingOk, At, Forward, CanFill, InTwoRings;
    SentLeaks(At(4), PACKET);
    OneTurn(At(4), PACKET);
    LeakedNotInv(Forward(At(4), PACKET), 0);
    SentThenReused(At(4), PACKET, 0, 0);
  }
}
