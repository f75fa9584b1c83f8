/** What a poll loop that runs out does to the semaphores: for each of the three kinds
    that `Breaks` names, a run after which exclusion no longer holds. */
module SemaphoreExpiry {
  import opened Semaphore

  ghost predicate Reach(s: State, t: State) {
    exists acts :: Legal(s, acts) && Exec(s, acts) == t
  }

  lemma {:induction false} Snoc(s: State, acts: seq<Action>, a: Action)
    requires Legal(s, acts) && Enabled(Exec(s, acts), a)
    ensures Legal(s, acts + [a]) && Exec(s, acts + [a]) == Apply(Exec(s, acts), a)
    decreases |acts|
  {
    hide Apply, Enabled;
    if acts == [] {
      assert [] + [a] == [a] && [a][1..] == [];
      assert Legal(Apply(s, a), []);
    } else {
      Snoc(Apply(s, acts[0]), acts[1..], a);
      assert (acts + [a])[1..] == acts[1..] + [a];
    }
  }

  lemma Here(s: State)
    ensures Reach(s, s)
  {
    assert Legal(s, []) && Exec(s, []) == s;
  }

  lemma Go(s: State, t: State, a: Action)
    requires Reach(s, t) && Enabled(t, a)
    ensures Reach(s, Apply(t, a))
  {
    hide Apply, Enabled, Legal, Exec;
    var acts :| Legal(s, acts) && Exec(s, acts) == t;
    Snoc(s, acts, a);
    assert Legal(s, acts + [a]) && Exec(s, acts + [a]) == Apply(t, a);
  }

  ghost predicate Quiet(s: State, d: nat) {
    d < |s.pcs| == |s.owned| && !s.smbi && !s.swesmbi && !s.fw
  }

  /** Both semaphores are free: the driver walks in. */
  lemma Enter(s0: State, s: State, d: nat)
    requires Reach(s0, s) && Quiet(s, d)
    requires (s.pcs[d].PollSmbi? && s.pcs[d].i < SEMAPHORE_POLLS) || s.pcs[d].LastTry?
    ensures Reach(s0, At(s.(smbi := true, swesmbi := true), d, ReadGssr(s.pcs[d].goal)))
  {
    hide Reach;
    var g := s.pcs[d].goal;
    Go(s0, s, Move(d));
    var a := At(s.(smbi := true), d, PollSwe(g, 0));
    assert Apply(s, Move(d)) == a;
    Go(s0, a, Move(d));
    var b := At(s.(smbi := true), d, SetSwe(g, 0, true));
    assert Apply(a, Move(d)) == b;
    Go(s0, b, Move(d));
    var c := At(s.(smbi := true, swesmbi := true), d, CheckSwe(g, 0));
    assert Apply(b, Move(d)) == c;
    Go(s0, c, Move(d));
    assert Apply(c, Move(d)) == At(s.(smbi := true, swesmbi := true), d, ReadGssr(g));
  }

  lemma Exit(s0: State, s: State, d: nat)
    requires Reach(s0, s) && d < |s.pcs| == |s.owned| && s.pcs[d].Clear?
    ensures var pc := s.pcs[d];
            Reach(s0, At(s.(smbi := false, swesmbi := false), d,
                         match pc.why
                         case Wipe => LastTry(pc.goal)
                         case Quit => OnFail(pc.goal)
                         case Leave(done, seen) => AfterLeave(pc.goal, done, seen)))
  {
    hide Reach;
    var pc := s.pcs[d];
    Go(s0, s, Move(d));
    var a := At(s.(smbi := true), d, ClearWrite(pc.goal, pc.why));
    assert Apply(s, Move(d)) == a;
    Go(s0, a, Move(d));
    var next := match pc.why
                case Wipe => LastTry(pc.goal)
                case Quit => OnFail(pc.goal)
                case Leave(done, seen) => AfterLeave(pc.goal, done, seen);
    assert Apply(a, Move(d)) == At(s.(smbi := false, swesmbi := false), d, next);
  }

  /** Polling SMBI while another driver has it only counts. */
  lemma {:induction false} PollInVain(s0: State, s: State, d: nat)
    requires Reach(s0, s) && d < |s.pcs| == |s.owned| && s.smbi
    requires s.pcs[d].PollSmbi? && s.pcs[d].i <= SEMAPHORE_POLLS
    ensures Reach(s0, At(s, d, PollSmbi(s.pcs[d].goal, SEMAPHORE_POLLS)))
    decreases SEMAPHORE_POLLS - s.pcs[d].i
  {
    hide Reach;
    var g, i := s.pcs[d].goal, s.pcs[d].i;
    if i < SEMAPHORE_POLLS {
      Go(s0, s, Move(d));
      var a := At(s, d, PollSmbi(g, i + 1));
      assert Apply(s, Move(d)) == a;
      PollInVain(s0, a, d);
      assert At(a, d, PollSmbi(g, SEMAPHORE_POLLS)) == At(s, d, PollSmbi(g, SEMAPHORE_POLLS));
    } else {
      assert At(s, d, PollSmbi(g, SEMAPHORE_POLLS)) == s;
    }
  }

  /** Polling SWESMBI while the firmware holds its half only counts. */
  lemma {:induction false} AskInVain(s0: State, s: State, d: nat)
    requires Reach(s0, s) && d < |s.pcs| == |s.owned| && s.smbi && !s.swesmbi && s.fw
    requires s.pcs[d].PollSwe? && s.pcs[d].i <= SEMAPHORE_POLLS
    ensures Reach(s0, At(s, d, PollSwe(s.pcs[d].goal, SEMAPHORE_POLLS)))
    decreases SEMAPHORE_POLLS - s.pcs[d].i
  {
    hide Reach;
    var g, i := s.pcs[d].goal, s.pcs[d].i;
    if i < SEMAPHORE_POLLS {
      Go(s0, s, Move(d));
      var a := At(s, d, SetSwe(g, i, true));
      assert Apply(s, Move(d)) == a;
      Go(s0, a, Move(d));
      var b := At(s, d, CheckSwe(g, i));
      assert Apply(a, Move(d)) == b;
      Go(s0, b, Move(d));
      var c := At(s, d, PollSwe(g, i + 1));
      assert Apply(b, Move(d)) == c;
      AskInVain(s0, c, d);
      assert At(c, d, PollSwe(g, SEMAPHORE_POLLS)) == At(s, d, PollSwe(g, SEMAPHORE_POLLS));
    } else {
      assert At(s, d, PollSwe(g, SEMAPHORE_POLLS)) == s;
    }
  }

  /** Trying to take something that stays taken uses up the tries; then the bits in the
      way are cleared, whoever set them. */
  lemma {:induction false} TryInVain(s0: State, s: State, d: nat)
    requires Reach(s0, s) && Quiet(s, d) && s.pcs[d].PollSmbi? && s.pcs[d].i == 0
    requires s.pcs[d].goal.Take? && s.pcs[d].goal.tries < SYNC_TRIES
    requires var m := s.pcs[d].goal.mask; s.gssr * (m + Fw(m)) != {}
    ensures var m := s.pcs[d].goal.mask; Reach(s0, At(s, d, PollSmbi(Give(s.gssr * (m + Fw(m)), true), 0)))
    decreases SYNC_TRIES - s.pcs[d].goal.tries
  {
    hide Reach, Fw;
    var g := s.pcs[d].goal;
    var seen := s.gssr * (g.mask + Fw(g.mask));
    Enter(s0, s, d);
    var a := At(s.(smbi := true, swesmbi := true), d, ReadGssr(g));
    Go(s0, a, Move(d));
    var b := At(s.(smbi := true, swesmbi := true), d, Clear(g, Leave(false, seen)));
    assert Apply(a, Move(d)) == b;
    Exit(s0, b, d);
    var c := At(s, d, AfterLeave(g, false, seen));
    assert At(b.(smbi := false, swesmbi := false), d, AfterLeave(g, false, seen)) == c;
    if g.tries + 1 < SYNC_TRIES {
      TryInVain(s0, c, d);
      assert At(c, d, PollSmbi(Give(seen, true), 0)) == At(s, d, PollSmbi(Give(seen, true), 0));
    }
  }

  /** Enter, change GSSR and leave. */
  lemma Round(s0: State, s: State, d: nat, gssr: set<nat>, owned: set<nat>)
    requires Reach(s0, s) && Quiet(s, d) && s.pcs[d].PollSmbi? && s.pcs[d].i == 0
    requires match s.pcs[d].goal
             case Take(m, _) => s.gssr * (m + Fw(m)) == {} && gssr == s.gssr + m && owned == s.owned[d] + m
             case Give(bits, forced) =>
               gssr == s.gssr - bits && owned == if forced then s.owned[d] else s.owned[d] - bits
    ensures Reach(s0, At(s.(gssr := gssr, owned := s.owned[d := owned]), d, Idle))
  {
    hide Reach, Fw;
    var g, inside := s.pcs[d].goal, s.(smbi := true, swesmbi := true);
    Enter(s0, s, d);
    var a := At(inside, d, ReadGssr(g));
    Go(s0, a, Move(d));
    var b := At(inside, d, WriteGssr(g, gssr));
    assert Apply(a, Move(d)) == b;
    Go(s0, b, Move(d));
    var c := At(inside.(gssr := gssr, owned := s.owned[d := owned]), d, Clear(g, Leave(true, {})));
    assert Apply(b, Move(d)) == c;
    Exit(s0, c, d);
    var e := At(s.(gssr := gssr, owned := s.owned[d := owned]), d, Idle);
    assert At(c.(smbi := false, swesmbi := false), d, AfterLeave(g, true, {})) == e;
  }

  /** Two drivers inside at once, after one of them stopped waiting for SMBI. */
  lemma SmbiExpiry()
    ensures exists t ::
              && Reach(Start(2), t) && |t.pcs| == |t.owned| == 2
              && Inside(t.pcs[0]) && Inside(t.pcs[1]) && !Exclusive(t)
  {
    hide Reach;
    var s0, g, h := Start(2), Take({0}, 0), Take({1}, 0);
    Here(s0);
    Go(s0, s0, Call(0, g));
    var a := At(s0, 0, PollSmbi(g, 0));
    Enter(s0, a, 0);
    var b := At(a.(smbi := true, swesmbi := true), 0, ReadGssr(g));
    Go(s0, b, Call(1, h));
    var c := At(b, 1, PollSmbi(h, 0));
    PollInVain(s0, c, 1);
    var e := At(c, 1, PollSmbi(h, SEMAPHORE_POLLS));
    Go(s0, e, Move(1));
    var f := At(e, 1, Clear(h, Wipe));
    Exit(s0, f, 1);
    var k := At(f.(smbi := false, swesmbi := false), 1, LastTry(h));
    Enter(s0, k, 1);
    var t := At(k.(smbi := true, swesmbi := true), 1, ReadGssr(h));
    assert Inside(t.pcs[0]) && Inside(t.pcs[1]);
  }

  /** Two owners of one resource, after one of them ran out of tries. */
  lemma TriesExpiry()
    ensures exists t ::
              && Reach(Start(2), t) && |t.pcs| == |t.owned| == 2
              && 0 in t.owned[0] && 0 in t.owned[1] && !Exclusive(t)
  {
    hide Reach;
    var s0, g := Start(2), Take({0}, 0);
    assert Fw({0}) == {5} && Fw({}) == {};
    Here(s0);
    Go(s0, s0, Call(0, g));
    Round(s0, At(s0, 0, PollSmbi(g, 0)), 0, {0}, {0});
    var a := s0.(gssr := {0}, owned := s0.owned[0 := {0}]);
    assert At(At(s0, 0, PollSmbi(g, 0)).(gssr := {0}, owned := s0.owned[0 := {0}]), 0, Idle) == a;
    Go(s0, a, Call(1, g));
    var b := At(a, 1, PollSmbi(g, 0));
    assert a.gssr * ({0} + Fw({0})) == {0};
    TryInVain(s0, b, 1);
    var c := At(b, 1, PollSmbi(Give({0}, true), 0));
    Round(s0, c, 1, {}, {});
    var e := At(c.(gssr := {}, owned := c.owned[1 := {}]), 1, Idle);
    Go(s0, e, Call(1, g));
    var f := At(e, 1, PollSmbi(g, 0));
    Round(s0, f, 1, {0}, {0});
    var t := At(f.(gssr := {0}, owned := f.owned[1 := {0}]), 1, Idle);
    assert 0 in t.owned[0] && 0 in t.owned[1];
  }

  /** A driver inside together with the firmware, after it stopped waiting for SWESMBI on
      the way to give something back. */
  lemma SweExpiry()
    ensures exists t ::
              && Reach(Start(1), t) && |t.pcs| == |t.owned| == 1
              && Inside(t.pcs[0]) && FwInside(t.fwPc) && !Exclusive(t)
  {
    hide Reach;
    var s0, take, g := Start(1), Take({0}, 0), Give({0}, false);
    assert Fw({0}) == {5};
    Here(s0);
    Go(s0, s0, Call(0, take));
    Round(s0, At(s0, 0, PollSmbi(take, 0)), 0, {0}, {0});
    var s := s0.(gssr := {0}, owned := s0.owned[0 := {0}]);
    assert At(At(s0, 0, PollSmbi(take, 0)).(gssr := {0}, owned := s0.owned[0 := {0}]), 0, Idle) == s;
    Go(s0, s, FwCall({1}, true));
    var a := s.(fwPc := FwGet({1}, true));
    Go(s0, a, FwMove);
    var b := s.(fw := true, fwPc := FwRead({1}, true));
    assert Apply(a, FwMove) == b;
    Go(s0, b, Call(0, g));
    var c := At(b, 0, PollSmbi(g, 0));
    Go(s0, c, Move(0));
    var e := At(b.(smbi := true), 0, PollSwe(g, 0));
    assert Apply(c, Move(0)) == e;
    AskInVain(s0, e, 0);
    var f := At(e, 0, PollSwe(g, SEMAPHORE_POLLS));
    Go(s0, f, Move(0));
    var k := At(f, 0, Clear(g, Quit));
    Exit(s0, k, 0);
    var t := At(k.(smbi := false, swesmbi := false), 0, ReadGssr(g));
    assert Inside(t.pcs[0]) && FwInside(t.fwPc);
  }
}
