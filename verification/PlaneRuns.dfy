/** Whole runs of the driver, its caller and the NICs, in any interleaving. */
module PlaneRuns {
  import opened Arithmetic
  import opened Rings
  import opened Plane

  // ----- runs

  ghost predicate Legal(st: State, trace: seq<Action>)
    requires Inv(st)
    decreases |trace|
  {
    trace == [] || (Enabled(st, trace[0]) && (StepKeeps(st, trace[0]); Legal(Apply(st, trace[0]), trace[1..])))
  }

  /** Every state of every run satisfies the invariant. */
  ghost function Exec(st: State, trace: seq<Action>): (end: State)
    requires Inv(st) && Legal(st, trace)
    ensures Inv(end)
    decreases |trace|
  {
    if trace == [] then st
    else
      StepKeeps(st, trace[0]);
      Exec(Apply(st, trace[0]), trace[1..])
  }

  /** One more step at the end of a run. */
  lemma {:induction false} LegalSnoc(st: State, trace: seq<Action>, a: Action)
    requires Inv(st) && Legal(st, trace) && Enabled(Exec(st, trace), a)
    ensures Legal(st, trace + [a]) && Exec(st, trace + [a]) == Apply(Exec(st, trace), a)
    decreases |trace|
  {
    hide Inv, Enabled, Apply;
    StepKeeps(Exec(st, trace), a);
    if trace == [] {
      assert [a][1..] == [];
    } else {
      StepKeeps(st, trace[0]);
      LegalSnoc(Apply(st, trace[0]), trace[1..], a);
      assert (trace + [a])[0] == trace[0] && (trace + [a])[1..] == trace[1..] + [a];
    }
  }

  function EmptyRing(rx: bool, size: nat): Ring {
    Ring(rx, size, 0, 0, 0, 0, seq(size, _ => 0), seq(size, _ => Desc(0, 0)))
  }

  /** The plane as it is set up: empty rings, every slot free. */
  function Start(ports: nat, count: nat, rxSize: nat, txSize: nat): State {
    State(seq(ports, _ => Port(EmptyRing(true, rxSize), EmptyRing(false, txSize), 0, 0)),
          seq(Total(ports, count), _ => false), count, multiset{})
  }

  lemma {:induction false} NothingHeld(st: State, k: nat)
    requires PortsOk(st.ports) && k <= |st.ports|
    requires forall i | 0 <= i < |st.ports| :: Outstanding(st.ports[i].rx) == Outstanding(st.ports[i].tx) == 0
    ensures HeldPorts(st.ports, k) == multiset{}
  {
    if k > 0 {
      NothingHeld(st, k - 1);
      assert Window(st.ports[k - 1].rx) == [] && Window(st.ports[k - 1].tx) == [];
    }
  }

  lemma StartInv(ports: nat, count: nat, rxSize: nat, txSize: nat)
    requires 2 <= rxSize < 0x1_0000 && 2 <= txSize < 0x1_0000
    ensures Inv(Start(ports, count, rxSize, txSize))
  {
    var st := Start(ports, count, rxSize, txSize);
    NothingHeld(st, |st.ports|);
    assert (set s: int | 0 <= s < |st.slots| && st.slots[s]) == {};
  }

  // ----- a slot is in exactly one place

  datatype Place = Hand | InRx(port: nat, k: nat) | InTx(port: nat, k: nat)

  /** Slot s is at this place: with the caller, or k-th in a ring. */
  ghost predicate IsAt(st: State, s: int, pl: Place)
    requires PortsOk(st.ports)
  {
    match pl
    case Hand => s in st.hand
    case InRx(p, k) => p < |st.ports| && k < Outstanding(st.ports[p].rx) && Window(st.ports[p].rx)[k] == s
    case InTx(p, k) => p < |st.ports| && k < Outstanding(st.ports[p].tx) && Window(st.ports[p].tx)[k] == s
  }

  lemma {:induction false} HolderOf(ports: seq<Port>, k: nat, s: int) returns (p: nat)
    requires PortsOk(ports) && k <= |ports| && s in HeldPorts(ports, k)
    ensures p < k && s in HeldPort(ports[p])
  {
    hide HeldPort, RingOk, Total;
    if s in HeldPort(ports[k - 1]) {
      p := k - 1;
    } else {
      p := HolderOf(ports, k - 1, s);
    }
  }

  lemma SomewhereIfInFlight(st: State, s: int) returns (pl: Place)
    requires Inv(st) && 0 <= s < |st.slots| && st.slots[s]
    ensures IsAt(st, s, pl)
  {
    hide HeldPorts, RingOk, Window, Total;
    InFlightSet(st.slots, s);
    assert s in Held(st);
    if s in st.hand {
      pl := Hand;
    } else {
      var p := HolderOf(st.ports, |st.ports|, s);
      var w, v := Window(st.ports[p].rx), Window(st.ports[p].tx);
      if s in w {
        var k :| 0 <= k < |w| && w[k] == s;
        pl := InRx(p, k);
      } else {
        var k :| 0 <= k < |v| && v[k] == s;
        pl := InTx(p, k);
      }
    }
  }

  lemma {:induction false} TwoPorts(ports: seq<Port>, p: nat, q: nat, k: nat, s: int)
    requires PortsOk(ports) && p < q < k <= |ports|
    ensures HeldPorts(ports, k)[s] >= HeldPort(ports[p])[s] + HeldPort(ports[q])[s]
  {
    hide HeldPort, RingOk, Total;
    if q == k - 1 {
      OnePortCount(ports, p, k - 1, s);
    } else {
      TwoPorts(ports, p, q, k - 1, s);
    }
  }

  lemma {:induction false} OnePortCount(ports: seq<Port>, p: nat, k: nat, s: int)
    requires PortsOk(ports) && p < k <= |ports|
    ensures HeldPorts(ports, k)[s] >= HeldPort(ports[p])[s]
  {
    hide HeldPort, RingOk, Total;
    if p < k - 1 {
      OnePortCount(ports, p, k - 1, s);
    }
  }

  /** Two different places in one port hold a slot twice. */
  lemma SamePortTwice(st: State, s: int, pl: Place, pm: Place)
    requires PortsOk(st.ports) && IsAt(st, s, pl) && IsAt(st, s, pm) && pl != pm
    requires !pl.Hand? && !pm.Hand? && pl.port == pm.port
    ensures HeldPort(st.ports[pl.port])[s] >= 2
  {
    hide RingOk, Window;
    var q := st.ports[pl.port];
    var w, v := Window(q.rx), Window(q.tx);
    if pl.InRx? && pm.InRx? {
      CountTwice(w, if pl.k < pm.k then pl.k else pm.k, if pl.k < pm.k then pm.k else pl.k);
    } else if pl.InTx? && pm.InTx? {
      CountTwice(v, if pl.k < pm.k then pl.k else pm.k, if pl.k < pm.k then pm.k else pl.k);
    } else {
      assert s in w && s in v;
    }
  }

  lemma PlaceCounts(st: State, s: int, pl: Place)
    requires PortsOk(st.ports) && IsAt(st, s, pl) && !pl.Hand?
    ensures HeldPort(st.ports[pl.port])[s] >= 1
  {
    hide RingOk, Window;
    var q := st.ports[pl.port];
    assert pl.InRx? ==> s in Window(q.rx);
    assert pl.InTx? ==> s in Window(q.tx);
  }

  lemma NowhereTwice(st: State, s: int, pl: Place, pm: Place)
    requires Inv(st) && IsAt(st, s, pl) && IsAt(st, s, pm)
    ensures pl == pm
  {
    hide RingOk, Window, HeldPort, HeldPorts, IsAt, Total;
    if pl != pm {
      assert Held(st)[s] >= 2 by { CountOfTwo(st, s, pl, pm); }
      assert s in Held(st);
      HeldOnce(st, s);
    }
  }

  lemma CountOfTwo(st: State, s: int, pl: Place, pm: Place)
    requires Inv(st) && IsAt(st, s, pl) && IsAt(st, s, pm) && pl != pm
    ensures Held(st)[s] >= 2
  {
    hide RingOk, Window, HeldPort, HeldPorts, PortsOk, InFlight, Suspended, Total;
    var n := |st.ports|;
    if pl.Hand? {
      PlaceCounts(st, s, pm);
      OnePortCount(st.ports, pm.port, n, s);
    } else if pm.Hand? {
      PlaceCounts(st, s, pl);
      OnePortCount(st.ports, pl.port, n, s);
    } else if pl.port == pm.port {
      SamePortTwice(st, s, pl, pm);
      OnePortCount(st.ports, pl.port, n, s);
    } else {
      PlaceCounts(st, s, pl);
      PlaceCounts(st, s, pm);
      if pl.port < pm.port {
        TwoPorts(st.ports, pl.port, pm.port, n, s);
      } else {
        TwoPorts(st.ports, pm.port, pl.port, n, s);
      }
    }
  }

  lemma NowhereIfFree(st: State, s: int, pl: Place)
    requires Inv(st) && IsAt(st, s, pl)
    ensures 0 <= s < |st.slots| && st.slots[s]
  {
    hide RingOk, Window, HeldPort, HeldPorts, PortsOk, InFlight, Suspended, Total;
    if !pl.Hand? {
      PlaceCounts(st, s, pl);
      OnePortCount(st.ports, pl.port, |st.ports|, s);
    }
    HeldOnce(st, s);
  }

  /** Conservation over every run: a slot is in flight exactly when it is somewhere,
      and then it is in one place only: with the caller, or once in one ring of one
      port. */
  lemma SlotConservation(st: State, trace: seq<Action>, s: int)
    requires Inv(st) && Legal(st, trace)
    ensures var end := Exec(st, trace);
            && (0 <= s < |end.slots| && end.slots[s] <==> exists pl :: IsAt(end, s, pl))
            && (forall pl, pm | IsAt(end, s, pl) && IsAt(end, s, pm) :: pl == pm)
  {
    hide IsAt, Legal;
    var end := Exec(st, trace);
    if 0 <= s < |end.slots| && end.slots[s] {
      var pl := SomewhereIfInFlight(end, s);
    }
    forall pl | IsAt(end, s, pl)
      ensures 0 <= s < |end.slots| && end.slots[s]
    {
      NowhereIfFree(end, s, pl);
    }
    forall pl, pm | IsAt(end, s, pl) && IsAt(end, s, pm)
      ensures pl == pm
    {
      NowhereTwice(end, s, pl, pm);
    }
  }

  // ----- order

  ghost function RingOf(st: State, p: nat, rx: bool): Ring
    requires p < |st.ports|
  {
    if rx then st.ports[p].rx else st.ports[p].tx
  }

  /** What a step puts into a ring, and what it takes out. */
  ghost function Entering(st: State, a: Action, p: nat, rx: bool): seq<int>
    requires Inv(st) && Enabled(st, a) && p < |st.ports|
  {
    match a
    case RxAssign(q, _) => if rx && q == p then [SlotAt(st, p, Find(st, p))] else []
    case TxAssign(q, s, _, size) =>
      if !rx && q == p && Unused(st.ports[p].tx) != 0 && size <= MAX_DATA_PER_TXD then [s] else []
    case _ => []
  }

  ghost function Leaving(st: State, a: Action, p: nat, rx: bool): seq<int>
    requires Inv(st) && Enabled(st, a) && p < |st.ports|
  {
    match a
    case RxClean(q) => if rx && q == p then [st.ports[p].rx.slot[st.ports[p].rx.clean]] else []
    case TxClean(q) => if !rx && q == p then [st.ports[p].tx.slot[st.ports[p].tx.clean]] else []
    case _ => []
  }

  /** The step works on this ring of port p. */
  predicate WorksOn(a: Action, p: nat, rx: bool) {
    match a
    case RxAssign(q, _) => rx && q == p
    case RxDoorbell(q) => rx && q == p
    case RxClean(q) => rx && q == p
    case NicRx(q, _) => rx && q == p
    case TxAssign(q, _, _, _) => !rx && q == p
    case TxXmit(q) => !rx && q == p
    case TxClean(q) => !rx && q == p
    case NicTx(q, _) => !rx && q == p
    case _ => false
  }

  lemma NoTraffic(st: State, a: Action, p: nat, rx: bool)
    requires Inv(st) && Enabled(st, a) && p < |st.ports| && !WorksOn(a, p, rx)
    ensures Entering(st, a, p, rx) == [] && Leaving(st, a, p, rx) == []
  {
    hide Inv, Enabled, SlotAt, Find, Unused;
  }

  lemma OtherRing(st: State, a: Action, p: nat, rx: bool)
    requires Inv(st) && Enabled(st, a) && p < |st.ports| && !WorksOn(a, p, rx)
    ensures |Apply(st, a).ports| == |st.ports| && RingOf(Apply(st, a), p, rx) == RingOf(st, p, rx)
  {
    hide RingOk, Held, InFlight, SlotAt, Find, PortsOk, Unused, CanClean, Done, Assign, Clean, Complete, Doorbell,
      Suspended, Indices, Release, RxDesc, TxDesc, Total;
    match a
    case SlotRelease(_) =>
    case TxAssign(_, _, _, _) =>
    case TxXmit(_) =>
    case _ =>
  }

  lemma StepOrderRx(st: State, a: Action, p: nat)
    requires Inv(st) && Enabled(st, a) && p < |st.ports| && WorksOn(a, p, true)
    ensures var st' := Apply(st, a);
            && |st'.ports| == |st.ports| && Indices(st.ports[p].rx) && Indices(st'.ports[p].rx)
            && Window(st.ports[p].rx) + Entering(st, a, p, true) == Leaving(st, a, p, true) + Window(st'.ports[p].rx)
  {
    hide Window, RingOk, Held, InFlight, SlotAt, Find, PortsOk, Unused, CanClean, Done, Assign, Clean, Complete, Doorbell,
      Suspended, Indices, Release, RxDesc, TxDesc, Total;
    PortAt(st, p);
    var r := st.ports[p].rx;
    match a
    case RxAssign(_, addr) => RxAssignWindow(r, SlotAt(st, p, Find(st, p)), addr);
    case RxClean(_) => CleanOk(r);
    case NicRx(_, w) => CompleteRx(r, w);
    case RxDoorbell(_) => DoorbellOk(r);
  }

  lemma StepOrderTx(st: State, a: Action, p: nat)
    requires Inv(st) && Enabled(st, a) && p < |st.ports| && WorksOn(a, p, false)
    ensures var st' := Apply(st, a);
            && |st'.ports| == |st.ports| && Indices(st.ports[p].tx) && Indices(st'.ports[p].tx)
            && Window(st.ports[p].tx) + Entering(st, a, p, false) == Leaving(st, a, p, false) + Window(st'.ports[p].tx)
  {
    hide Window, RingOk, Held, InFlight, SlotAt, Find, PortsOk, Unused, CanClean, Done, Assign, Clean, Complete, Doorbell,
      Suspended, Indices, Release, RxDesc, TxDesc, Total;
    PortAt(st, p);
    var r := st.ports[p].tx;
    match a
    case TxAssign(_, s, addr, size) =>
      if Unused(r) != 0 && size <= MAX_DATA_PER_TXD { TxAssignWindow(r, s, addr, size); }
    case TxClean(_) => CleanOk(r);
    case NicTx(_, w) => CompleteTx(r, w);
    case TxXmit(_) => DoorbellOk(r);
  }

  lemma StepOrder(st: State, a: Action, p: nat, rx: bool)
    requires Inv(st) && Enabled(st, a) && p < |st.ports|
    ensures var st' := Apply(st, a);
            && |st'.ports| == |st.ports| && Indices(RingOf(st, p, rx)) && Indices(RingOf(st', p, rx))
            && Window(RingOf(st, p, rx)) + Entering(st, a, p, rx)
               == Leaving(st, a, p, rx) + Window(RingOf(st', p, rx))
  {
    hide Window, Enabled, Apply, Entering, Leaving, RingOk;
    PortAt(st, p);
    hide Inv, Indices;
    if !WorksOn(a, p, rx) {
      NoTraffic(st, a, p, rx);
      OtherRing(st, a, p, rx);
    } else if rx {
      StepOrderRx(st, a, p);
    } else {
      StepOrderTx(st, a, p);
    }
  }

  lemma RxAssignWindow(r: Ring, s: int, addr: nat)
    requires RingOk(r) && r.rx && Unused(r) > 0
    ensures Indices(Assign(r, s, RxDesc(addr))) && Window(Assign(r, s, RxDesc(addr))) == Window(r) + [s]
  {
    hide RingOk, Window, RxDesc, Done;
    FreshNotDone(addr, 0);
    AssignOk(r, s, RxDesc(addr));
  }

  lemma TxAssignWindow(r: Ring, s: int, addr: nat, size: nat)
    requires RingOk(r) && !r.rx && Unused(r) != 0 && size <= MAX_DATA_PER_TXD
    ensures Indices(Assign(r, s, TxDesc(addr, size))) && Window(Assign(r, s, TxDesc(addr, size))) == Window(r) + [s]
  {
    hide RingOk, Window, TxDesc, Done;
    UnusedRight(r);
    FreshNotDone(addr, size);
    AssignOk(r, s, TxDesc(addr, size));
  }

  lemma CompleteRx(r: Ring, w: nat)
    requires RingOk(r) && r.rx && r.head != r.tail && Done(true, Desc(0, w))
    ensures Indices(Complete(r, w)) && Window(Complete(r, w)) == Window(r)
  {
    hide RingOk, Window;
    CompleteOk(r, w);
  }

  lemma CompleteTx(r: Ring, w: nat)
    requires RingOk(r) && !r.rx && r.head != r.tail && Done(false, Desc(0, w))
    ensures Indices(Complete(r, w)) && Window(Complete(r, w)) == Window(r)
  {
    hide RingOk, Window;
    CompleteOk(r, w);
  }

  ghost function Entered(st: State, trace: seq<Action>, p: nat, rx: bool): seq<int>
    requires Inv(st) && Legal(st, trace) && p < |st.ports|
    decreases |trace|
  {
    if trace == [] then []
    else
      StepKeeps(st, trace[0]);
      StepOrder(st, trace[0], p, rx);
      Entering(st, trace[0], p, rx) + Entered(Apply(st, trace[0]), trace[1..], p, rx)
  }

  ghost function Left(st: State, trace: seq<Action>, p: nat, rx: bool): seq<int>
    requires Inv(st) && Legal(st, trace) && p < |st.ports|
    decreases |trace|
  {
    if trace == [] then []
    else
      StepKeeps(st, trace[0]);
      StepOrder(st, trace[0], p, rx);
      Leaving(st, trace[0], p, rx) + Left(Apply(st, trace[0]), trace[1..], p, rx)
  }

  /** First in, first out, over every run: what was in the ring and what came in is
      what went out, in the same order, and what is still there. */
  lemma {:induction false} RunOrder(st: State, trace: seq<Action>, p: nat, rx: bool)
    requires Inv(st) && Legal(st, trace) && p < |st.ports| && Indices(RingOf(st, p, rx))
    ensures var end := Exec(st, trace);
            && p < |end.ports| && Indices(RingOf(end, p, rx))
            && Window(RingOf(st, p, rx)) + Entered(st, trace, p, rx)
               == Left(st, trace, p, rx) + Window(RingOf(end, p, rx))
    decreases |trace|
  {
    hide Window, Inv, Enabled, Apply, Entering, Leaving, Indices, RingOf;
    if trace != [] {
      var a, rest := trace[0], trace[1..];
      StepKeeps(st, a);
      StepOrder(st, a, p, rx);
      var st' := Apply(st, a);
      RunOrder(st', rest, p, rx);
      var w, w', e := Window(RingOf(st, p, rx)), Window(RingOf(st', p, rx)), Window(RingOf(Exec(st, trace), p, rx));
      var i, o := Entering(st, a, p, rx), Leaving(st, a, p, rx);
      var ins, outs := Entered(st', rest, p, rx), Left(st', rest, p, rx);
      assert w + (i + ins) == (w + i) + ins == (o + w') + ins == o + (w' + ins) == o + (outs + e) == (o + outs) + e;
    }
  }

  // ----- cleaning and assigning

  /** In every state of every run, a descriptor that passes the driver's test has been
      finished by the NIC since it was last written and is not the NIC's any more; and
      a finished one is never passed over. */
  lemma CleanIsSafe(st: State, trace: seq<Action>, p: nat, rx: bool)
    requires Inv(st) && Legal(st, trace) && p < |Exec(st, trace).ports|
    ensures var r := RingOf(Exec(st, trace), p, rx);
            && Indices(r) && (CanClean(r) <==> Finished(r) > 0)
            && (CanClean(r) ==> !NicOwns(r, r.clean))
  {
    hide Legal, Exec, RingOk;
    var end := Exec(st, trace);
    PortAt(end, p);
    var r := RingOf(end, p, rx);
    CanCleanIff(r);
    if CanClean(r) {
      CleanOk(r);
    }
  }

  /** In every state of every run, assigning a slot fails exactly when the port's whole
      range is in flight. */
  lemma AssignFailsWhenExhausted(st: State, trace: seq<Action>, p: nat)
    requires Inv(st) && Legal(st, trace) && p < |Exec(st, trace).ports|
    ensures Find(Exec(st, trace), p) < 0 <==> RangeInFlight(Exec(st, trace), p)
  {
    hide Legal, Exec, Held, InFlight, PortsOk, Suspended, Total;
    FindFails(Exec(st, trace), p);
  }
}
