/** The semaphores that drivers and firmware share: SMBI and SWESMBI in the SWSM register,
    and the resource bits of GSSR that they protect. Any number of drivers, each at its
    own line of the code, and a firmware that follows the mirrored protocol. */
module Semaphore {

  /** Bits of the resources: EEPROM, the two PHYs, MAC CSR, flash, and SW/MNG. */
  const RESOURCES: set<nat> := {0, 1, 2, 3, 4, 10}
  const SEMAPHORE_POLLS: nat := 2000
  const SYNC_TRIES: nat := 200

  /** The firmware's bits for the same resources. */
  function Fw(mask: set<nat>): set<nat> {
    set b | b in mask :: b + 5
  }

  /** Each resource has its own firmware bit, five places up, and that is no resource's. */
  lemma FirmwareBits(mask: set<nat>, b: nat)
    ensures b in mask <==> b + 5 in Fw(mask)
    ensures b in Fw(mask) ==> b >= 5
    ensures Fw(RESOURCES) == {5, 6, 7, 8, 9, 15}
  {
    if b + 5 in Fw(mask) {
      var c :| c in mask && c + 5 == b + 5;
    }
  }

  /** What a driver is doing: taking resources, on its n-th try, or clearing bits of
      GSSR; `forced` if they are not known to be its own. */
  datatype Goal = Take(mask: set<nat>, tries: nat) | Give(bits: set<nat>, forced: bool)

  /** Why both semaphore bits are being cleared: the first poll expired; the second poll
      expired; or the critical section is over. */
  datatype Why = Wipe | Quit | Leave(done: bool, seen: set<nat>)

  /** Where a driver is. Every register access is a step of its own; values read are kept
      until they are written back. */
  datatype Pc =
    | Idle
    | PollSmbi(goal: Goal, i: nat)
    | LastTry(goal: Goal)
    | PollSwe(goal: Goal, i: nat)
    | SetSwe(goal: Goal, i: nat, smbi: bool)
    | CheckSwe(goal: Goal, i: nat)
    | ReadGssr(goal: Goal)
    | WriteGssr(goal: Goal, value: set<nat>)
    | Clear(goal: Goal, why: Why)
    | ClearWrite(goal: Goal, why: Why)

  datatype FwPc = FwIdle | FwGet(mask: set<nat>, take: bool) | FwRead(mask: set<nat>, take: bool)
                | FwWrite(mask: set<nat>, take: bool, value: set<nat>) | FwLeave

  /** `fw` is the firmware's half of the SW/FW semaphore. */
  datatype State = State(
    smbi: bool, swesmbi: bool, fw: bool, gssr: set<nat>,
    pcs: seq<Pc>, owned: seq<set<nat>>,
    fwPc: FwPc, fwOwned: set<nat>)

  datatype Action = Call(d: nat, goal: Goal) | Move(d: nat) | FwCall(mask: set<nat>, take: bool) | FwMove

  function Start(n: nat): State {
    State(false, false, false, {}, seq(n, i => Idle), seq(n, i => {}), FwIdle, {})
  }

  predicate Enabled(s: State, a: Action) {
    match a
    case Call(d, goal) =>
      && d < |s.pcs| == |s.owned| && s.pcs[d] == Idle
      && (match goal
          case Take(mask, tries) => mask <= RESOURCES && tries == 0
          case Give(bits, forced) => bits <= s.owned[d] && !forced)
    case Move(d) => d < |s.pcs| == |s.owned| && s.pcs[d] != Idle
    case FwCall(mask, take) => s.fwPc == FwIdle && if take then mask <= RESOURCES else mask <= s.fwOwned
    case FwMove => s.fwPc != FwIdle
  }

  function At(s: State, d: nat, pc: Pc): State
    requires d < |s.pcs|
  {
    s.(pcs := s.pcs[d := pc])
  }

  /** The semaphore could not be had: taking gives up, clearing goes on without it. */
  function OnFail(goal: Goal): Pc {
    if goal.Take? then Idle else ReadGssr(goal)
  }

  /** After the critical section: done, try again, or, when the tries are used up, clear
      the bits that were in the way. */
  function AfterLeave(goal: Goal, done: bool, seen: set<nat>): Pc {
    if done || goal.Give? then Idle
    else if goal.tries + 1 < SYNC_TRIES then PollSmbi(goal.(tries := goal.tries + 1), 0)
    else PollSmbi(Give(seen, true), 0)
  }

  /** Reading SWSM returns SMBI and sets it. SWESMBI can be set unless the firmware holds
      its half. */
  function MoveDriver(s: State, d: nat): State
    requires d < |s.pcs| == |s.owned|
  {
    var reading := s.(smbi := true);
    match s.pcs[d]
    case Idle => s
    case PollSmbi(g, i) =>
      if i >= SEMAPHORE_POLLS then At(s, d, Clear(g, Wipe))
      else if !s.smbi then At(reading, d, PollSwe(g, 0))
      else At(reading, d, PollSmbi(g, i + 1))
    case LastTry(g) => At(reading, d, if !s.smbi then PollSwe(g, 0) else OnFail(g))
    case PollSwe(g, i) =>
      if i >= SEMAPHORE_POLLS then At(s, d, Clear(g, Quit)) else At(reading, d, SetSwe(g, i, s.smbi))
    case SetSwe(g, i, smbi) => At(s.(smbi := smbi, swesmbi := s.swesmbi || !s.fw), d, CheckSwe(g, i))
    case CheckSwe(g, i) => At(reading, d, if s.swesmbi then ReadGssr(g) else PollSwe(g, i + 1))
    case ReadGssr(g) =>
      (match g
       case Take(m, _) =>
         var seen := s.gssr * (m + Fw(m));
         At(s, d, if seen == {} then WriteGssr(g, s.gssr + m) else Clear(g, Leave(false, seen)))
       case Give(bits, _) => At(s, d, WriteGssr(g, s.gssr - bits)))
    case WriteGssr(g, value) =>
      var now := match g
                 case Take(m, _) => s.owned[d] + m
                 case Give(bits, forced) => if forced then s.owned[d] else s.owned[d] - bits;
      At(s.(gssr := value, owned := s.owned[d := now]), d, Clear(g, Leave(true, {})))
    case Clear(g, why) => At(reading, d, ClearWrite(g, why))
    case ClearWrite(g, why) =>
      At(s.(smbi := false, swesmbi := false), d,
         match why
         case Wipe => LastTry(g)
         case Quit => OnFail(g)
         case Leave(done, seen) => AfterLeave(g, done, seen))
  }

  function MoveFirmware(s: State): State {
    match s.fwPc
    case FwIdle => s
    case FwGet(m, take) => if s.swesmbi then s else s.(fw := true, fwPc := FwRead(m, take))
    case FwRead(m, take) =>
      if !take then s.(fwPc := FwWrite(m, take, s.gssr - Fw(m)))
      else if s.gssr * (m + Fw(m)) == {} then s.(fwPc := FwWrite(m, take, s.gssr + Fw(m)))
      else s.(fwPc := FwLeave)
    case FwWrite(m, take, value) =>
      s.(gssr := value, fwPc := FwLeave, fwOwned := if take then s.fwOwned + m else s.fwOwned - m)
    case FwLeave => s.(fw := false, fwPc := FwIdle)
  }

  function Apply(s: State, a: Action): State
    requires Enabled(s, a)
  {
    match a
    case Call(d, goal) => At(s, d, PollSmbi(goal, 0))
    case Move(d) => MoveDriver(s, d)
    case FwCall(m, take) => s.(fwPc := FwGet(m, take))
    case FwMove => MoveFirmware(s)
  }

  /** The step by which a poll loop runs out in a way that breaks the protocol: waiting for
      SMBI; waiting for SWESMBI in order to clear bits; and the last try to take. */
  predicate Breaks(s: State, a: Action) {
    a.Move? && a.d < |s.pcs| &&
    match s.pcs[a.d]
    case PollSmbi(_, i) => i >= SEMAPHORE_POLLS
    case PollSwe(g, i) => i >= SEMAPHORE_POLLS && g.Give?
    case ClearWrite(g, why) => why.Leave? && !why.done && g.Take? && g.tries + 1 >= SYNC_TRIES
    case _ => false
  }

  // ----- what is promised

  /** Between getting the semaphore and releasing it. */
  predicate Inside(pc: Pc) {
    pc.ReadGssr? || pc.WriteGssr? || ((pc.Clear? || pc.ClearWrite?) && pc.why.Leave?)
  }

  predicate FwInside(pc: FwPc) {
    pc.FwRead? || pc.FwWrite? || pc.FwLeave?
  }

  /** At most one agent is inside, and no resource has two owners. */
  ghost predicate Exclusive(s: State) {
    && |s.owned| == |s.pcs|
    && (forall d, e | 0 <= d < |s.pcs| && 0 <= e < |s.pcs| && Inside(s.pcs[d]) && Inside(s.pcs[e]) :: d == e)
    && (forall d | 0 <= d < |s.pcs| && Inside(s.pcs[d]) :: !FwInside(s.fwPc))
    && (forall d, e, b | 0 <= d < |s.owned| && 0 <= e < |s.owned| && b in s.owned[d] && b in s.owned[e] :: d == e)
    && (forall d, b | 0 <= d < |s.owned| && b in s.owned[d] :: b !in s.fwOwned)
  }

  // ----- the invariant

  /** Past the first semaphore. */
  predicate HasSmbi(pc: Pc) {
    pc.PollSwe? || pc.SetSwe? || pc.CheckSwe? || Inside(pc) || ((pc.Clear? || pc.ClearWrite?) && pc.why.Quit?)
  }

  predicate GoalOk(goal: Goal, owned: set<nat>) {
    match goal
    case Take(m, tries) => m <= RESOURCES && tries < SYNC_TRIES
    case Give(bits, forced) => bits <= owned && !forced
  }

  /** What a driver's own place says. */
  predicate PcOk(s: State, pc: Pc, owned: set<nat>) {
    && (pc == Idle || ((pc.Clear? || pc.ClearWrite?) && pc.why.Leave? && pc.why.done) || GoalOk(pc.goal, owned))
    && !pc.LastTry? && !((pc.Clear? || pc.ClearWrite?) && pc.why.Wipe?)
    && (HasSmbi(pc) ==> s.smbi)
    && (Inside(pc) ==> s.swesmbi)
    && ((pc.Clear? || pc.ClearWrite?) && pc.why.Quit? ==> pc.goal.Take?)
    && (pc.SetSwe? ==> pc.smbi)
    && (pc.WriteGssr? ==>
          match pc.goal
          case Take(m, _) => s.gssr * (m + Fw(m)) == {} && pc.value == s.gssr + m
          case Give(bits, _) => pc.value == s.gssr - bits)
  }

  predicate FwOk(s: State) {
    && (FwInside(s.fwPc) ==> s.fw)
    && s.fwOwned <= RESOURCES
    && (match s.fwPc
        case FwGet(m, take) => if take then m <= RESOURCES else m <= s.fwOwned
        case FwRead(m, take) => if take then m <= RESOURCES else m <= s.fwOwned
        case FwWrite(m, take, v) =>
          if take then m <= RESOURCES && s.gssr * (m + Fw(m)) == {} && v == s.gssr + Fw(m)
          else m <= s.fwOwned && v == s.gssr - Fw(m)
        case _ => true)
  }

  /** GSSR shows exactly what is owned, and by whom. */
  ghost predicate Shown(gssr: set<nat>, owned: seq<set<nat>>, fwOwned: set<nat>) {
    && (forall d | 0 <= d < |owned| :: owned[d] <= RESOURCES * gssr)
    && Fw(fwOwned) <= gssr
    && (forall b | b in gssr && b in RESOURCES :: exists d :: 0 <= d < |owned| && b in owned[d])
    && (forall b | b in gssr && b !in RESOURCES :: b >= 5 && b - 5 in fwOwned)
    && (forall d, e, b | 0 <= d < |owned| && 0 <= e < |owned| && b in owned[d] && b in owned[e] :: d == e)
    && (forall d, b | 0 <= d < |owned| && b in owned[d] :: b !in fwOwned)
  }

  ghost predicate Inv(s: State) {
    && |s.owned| == |s.pcs|
    && (forall d | 0 <= d < |s.pcs| :: PcOk(s, s.pcs[d], s.owned[d]))
    && (forall d, e | 0 <= d < |s.pcs| && 0 <= e < |s.pcs| && HasSmbi(s.pcs[d]) && HasSmbi(s.pcs[e]) :: d == e)
    && !(s.swesmbi && s.fw)
    && FwOk(s)
    && Shown(s.gssr, s.owned, s.fwOwned)
  }

  /** Past the second semaphore, or about to find out. */
  predicate HasSwe(pc: Pc) {
    pc.CheckSwe? || Inside(pc)
  }

  /** No semaphore stays behind: each one that is set has someone who holds it. */
  ghost predicate NothingStuck(s: State) {
    && (s.smbi ==> exists d :: 0 <= d < |s.pcs| && HasSmbi(s.pcs[d]))
    && (s.swesmbi ==> exists d :: 0 <= d < |s.pcs| && HasSwe(s.pcs[d]))
    && (s.fw ==> FwInside(s.fwPc))
  }

  lemma InvExclusive(s: State)
    requires Inv(s)
    ensures Exclusive(s)
  {
  }

  // ----- every step keeps it

  lemma ShownTake(gssr: set<nat>, owned: seq<set<nat>>, fwOwned: set<nat>, d: nat, m: set<nat>)
    requires Shown(gssr, owned, fwOwned) && d < |owned| && m <= RESOURCES && gssr * (m + Fw(m)) == {}
    ensures Shown(gssr + m, owned[d := owned[d] + m], fwOwned)
  {
    var now := owned[d := owned[d] + m];
    forall b | b in m
      ensures b !in gssr && b !in fwOwned && b in now[d]
    {
      assert b in m + Fw(m) && b + 5 in m + Fw(m);
      assert b in fwOwned ==> b + 5 in Fw(fwOwned);
    }
    forall b | b in gssr + m && b in RESOURCES
      ensures exists e :: 0 <= e < |now| && b in now[e]
    {
      if b in gssr {
        var e :| 0 <= e < |owned| && b in owned[e];
        assert b in now[e];
      }
    }
  }

  lemma ShownGive(gssr: set<nat>, owned: seq<set<nat>>, fwOwned: set<nat>, d: nat, bits: set<nat>)
    requires Shown(gssr, owned, fwOwned) && d < |owned| && bits <= owned[d] && fwOwned <= RESOURCES
    ensures Shown(gssr - bits, owned[d := owned[d] - bits], fwOwned)
  {
    var now := owned[d := owned[d] - bits];
    forall b | b in gssr - bits && b in RESOURCES
      ensures exists e :: 0 <= e < |now| && b in now[e]
    {
      var e :| 0 <= e < |owned| && b in owned[e];
      assert b in now[e];
    }
  }

  lemma ShownFirmware(gssr: set<nat>, owned: seq<set<nat>>, fwOwned: set<nat>, m: set<nat>)
    requires Shown(gssr, owned, fwOwned) && fwOwned <= RESOURCES
    ensures m <= RESOURCES && gssr * (m + Fw(m)) == {} ==> Shown(gssr + Fw(m), owned, fwOwned + m)
    ensures m <= fwOwned ==> Shown(gssr - Fw(m), owned, fwOwned - m)
  {
    forall b | b in RESOURCES
      ensures b + 5 !in RESOURCES
    {
    }
    if m <= RESOURCES && gssr * (m + Fw(m)) == {} {
      forall d, b | 0 <= d < |owned| && b in owned[d]
        ensures b !in fwOwned + m
      {
        assert b in m ==> b in gssr * (m + Fw(m));
      }
      assert Fw(fwOwned + m) == Fw(fwOwned) + Fw(m);
    }
    if m <= fwOwned {
      forall b | b in Fw(fwOwned - m)
        ensures b in gssr - Fw(m)
      {
        assert b in Fw(fwOwned);
      }
    }
  }

  /** Everyone else's place stays fine: only a driver past the first semaphore clears it,
      and only one inside changes GSSR. */
  lemma OthersOk(s: State, t: State, d: nat)
    requires Inv(s) && d < |s.pcs| == |t.pcs| == |t.owned|
    requires t.pcs == s.pcs[d := t.pcs[d]] && t.owned == s.owned[d := t.owned[d]]
    requires s.smbi && !t.smbi ==> HasSmbi(s.pcs[d])
    requires s.swesmbi && !t.swesmbi ==> HasSmbi(s.pcs[d])
    requires s.gssr != t.gssr ==> Inside(s.pcs[d])
    ensures forall e | 0 <= e < |s.pcs| && e != d :: PcOk(t, t.pcs[e], t.owned[e])
  {
    forall e | 0 <= e < |s.pcs| && e != d
      ensures PcOk(t, t.pcs[e], t.owned[e])
    {
      assert PcOk(s, s.pcs[e], s.owned[e]);
    }
  }

  lemma MoveKeeps(s: State, d: nat)
    requires Inv(s) && Enabled(s, Move(d)) && !Breaks(s, Move(d))
    ensures Inv(MoveDriver(s, d))
  {
    hide Shown, Fw;
    var t := MoveDriver(s, d);
    assert PcOk(s, s.pcs[d], s.owned[d]);
    if s.pcs[d].WriteGssr? {
      match s.pcs[d].goal
      case Take(m, _) => ShownTake(s.gssr, s.owned, s.fwOwned, d, m);
      case Give(bits, _) => ShownGive(s.gssr, s.owned, s.fwOwned, d, bits);
    } else {
      assert t.owned == s.owned;
    }
    assert t.pcs == s.pcs[d := t.pcs[d]];
    OthersOk(s, t, d);
  }

  lemma FirmwareKeeps(s: State)
    requires Inv(s) && Enabled(s, FwMove)
    ensures Inv(MoveFirmware(s))
  {
    hide Shown, Fw;
    var t := MoveFirmware(s);
    if s.fwPc.FwWrite? {
      ShownFirmware(s.gssr, s.owned, s.fwOwned, s.fwPc.mask);
    }
    forall e | 0 <= e < |s.pcs|
      ensures PcOk(t, t.pcs[e], t.owned[e])
    {
      assert PcOk(s, s.pcs[e], s.owned[e]);
    }
  }

  lemma MoveReleases(s: State, d: nat)
    requires Inv(s) && NothingStuck(s) && Enabled(s, Move(d)) && !Breaks(s, Move(d))
    ensures NothingStuck(MoveDriver(s, d))
  {
    hide Shown, Fw, FwOk;
    var t := MoveDriver(s, d);
    assert PcOk(s, s.pcs[d], s.owned[d]);
    if t.smbi && !HasSmbi(t.pcs[d]) {
      var e :| 0 <= e < |s.pcs| && HasSmbi(s.pcs[e]);
      assert HasSmbi(t.pcs[e]);
    }
    if t.swesmbi && !HasSwe(t.pcs[d]) {
      var e :| 0 <= e < |s.pcs| && HasSwe(s.pcs[e]);
      assert HasSwe(t.pcs[e]);
    }
  }

  lemma StepReleases(s: State, a: Action)
    requires Inv(s) && NothingStuck(s) && Enabled(s, a) && !Breaks(s, a)
    ensures NothingStuck(Apply(s, a))
  {
    hide Shown, Fw, FwOk, PcOk;
    if a.Move? {
      MoveReleases(s, a.d);
    } else {
      var t := Apply(s, a);
      if t.smbi {
        var e :| 0 <= e < |s.pcs| && HasSmbi(s.pcs[e]);
        assert HasSmbi(t.pcs[e]);
      }
      if t.swesmbi {
        var e :| 0 <= e < |s.pcs| && HasSwe(s.pcs[e]);
        assert HasSwe(t.pcs[e]);
      }
    }
  }

  lemma StepKeeps(s: State, a: Action)
    requires Inv(s) && Enabled(s, a) && !Breaks(s, a)
    ensures Inv(Apply(s, a))
  {
    hide Shown, MoveDriver, MoveFirmware;
    match a
    case Call(d, goal) => OthersOk(s, Apply(s, a), d);
    case Move(d) => MoveKeeps(s, d);
    case FwCall(_, _) =>
      var t := Apply(s, a);
      forall e | 0 <= e < |s.pcs|
        ensures PcOk(t, t.pcs[e], t.owned[e])
      {
        assert PcOk(s, s.pcs[e], s.owned[e]);
      }
    case FwMove => FirmwareKeeps(s);
  }

  // ----- whole runs

  ghost predicate Legal(s: State, acts: seq<Action>)
    decreases |acts|
  {
    acts == [] || (Enabled(s, acts[0]) && Legal(Apply(s, acts[0]), acts[1..]))
  }

  ghost function Exec(s: State, acts: seq<Action>): State
    requires Legal(s, acts)
    decreases |acts|
  {
    if acts == [] then s else Exec(Apply(s, acts[0]), acts[1..])
  }

  /** No poll loop runs out in a way that breaks the protocol. */
  ghost predicate Calm(s: State, acts: seq<Action>)
    requires Legal(s, acts)
    decreases |acts|
  {
    acts == [] || (!Breaks(s, acts[0]) && Calm(Apply(s, acts[0]), acts[1..]))
  }

  lemma {:induction false} RunKeeps(s: State, acts: seq<Action>)
    requires Inv(s) && NothingStuck(s) && Legal(s, acts) && Calm(s, acts)
    ensures Inv(Exec(s, acts)) && NothingStuck(Exec(s, acts))
    decreases |acts|
  {
    hide Inv, NothingStuck, Apply;
    if acts != [] {
      StepKeeps(s, acts[0]);
      StepReleases(s, acts[0]);
      RunKeeps(Apply(s, acts[0]), acts[1..]);
    }
  }

  /** For any number of drivers and the firmware, in every calm run: at most one agent is
      inside, no resource has two owners, GSSR shows exactly what is owned, and no
      semaphore stays set with nobody holding it. */
  lemma MutualExclusion(n: nat, acts: seq<Action>)
    requires Legal(Start(n), acts) && Calm(Start(n), acts)
    ensures var end := Exec(Start(n), acts);
            Exclusive(end) && Shown(end.gssr, end.owned, end.fwOwned) && NothingStuck(end)
  {
    RunKeeps(Start(n), acts);
    InvExclusive(Exec(Start(n), acts));
  }

  /** So when everyone is back, both semaphores are free. */
  lemma AllFree(n: nat, acts: seq<Action>)
    requires Legal(Start(n), acts) && Calm(Start(n), acts)
    requires var end := Exec(Start(n), acts);
             end.fwPc == FwIdle && forall d | 0 <= d < |end.pcs| :: end.pcs[d] == Idle
    ensures var end := Exec(Start(n), acts); !end.smbi && !end.swesmbi && !end.fw
  {
    MutualExclusion(n, acts);
  }
}
