/** Whole runs: any sequence of adds and deletes, carried out on the trie alone,
    against the same sequence carried out on a plain list of routes. */
module TrieRuns {
  import opened AddressBits
  import opened Arithmetic
  import opened Routes
  import opened Trie
  import opened TrieLaws
  import opened TrieSteps

  datatype Op = Update(route: Route) | Delete(route: Route)

  /** The test an add and a delete make: is there a record with this id and length
      where the prefix ends? */
  ghost predicate TrieHas(t: seq<Node>, off: nat, q: Route)
    requires Level(off) && Fits(q, |q.prefix|) && off < 32 * |q.prefix|
    decreases t
  {
    var e, i := off + Stride(off), Entry(q.prefix, off);
    assert Level(e);
    i < |t| && if q.len <= e then !NoMatch(t[i].head, q.id, q.len)
               else t[i].next != [] && TrieHas(t[i].next, e, q)
  }

  lemma {:induction false} TrieHasRoute(t: seq<Node>, off: nat, rs: seq<Route>, q: Route)
    requires RepTable(t, off, rs) && Reach(rs, off, |q.prefix|) && AllAgree(rs, q.prefix, off)
    requires Fits(q, |q.prefix|) && (off == 0 || q.len > off) && off < 32 * |q.prefix|
    ensures TrieHas(t, off, q) <==> HasRoute(rs, q)
    decreases t
  {
    hide RepTable, AllAgree, Entry, Touches, Keep, Sorted, NoMatch, HasRoute;
    var e, i := off + Stride(off), Entry(q.prefix, off);
    RepSize(t, off, rs);
    TouchesSelf(q, off);
    if q.len <= e {
      EntryLists(t, off, rs, q, i);
    } else {
      var sub := Through(rs, off, i);
      RepAt(t, off, rs, i);
      RepNextNonEmpty(t[i], e, sub);
      FarReach(rs, off, i, |q.prefix|);
      AgreeAll(off, rs, q, i);
      HasBelow(off, rs, q, i);
      if Far(sub, e) == [] {
        NoneInEmpty(q);
      } else {
        TrieHasRoute(t[i].next, e, Far(sub, e), q);
      }
    }
  }

  lemma NoneInEmpty(q: Route)
    ensures !HasRoute([], q)
  {
  }

  ghost function Step(t: seq<Node>, op: Op): seq<Node>
    requires Fits(op.route, |op.route.prefix|) && |op.route.prefix| > 0
  {
    match op
    case Update(r) => if TrieHas(t, 0, r) then t else AddTable(t, 0, r, Expansion(0, r.len))
    case Delete(q) => if TrieHas(t, 0, q) then DelTable(t, 0, q) else t
  }

  ghost function SpecStep(rs: seq<Route>, op: Op): seq<Route> {
    match op
    case Update(r) => if HasRoute(rs, r) then rs else [r] + rs
    case Delete(q) => Minus(rs, q)
  }

  ghost predicate OpsFit(ops: seq<Op>, words: nat) {
    words > 0 && forall op | op in ops :: Fits(op.route, words)
  }

  /** The trie after a run that starts empty, and the list after the same run. */
  ghost function Exec(ops: seq<Op>, words: nat): seq<Node>
    requires OpsFit(ops, words)
  {
    if ops == [] then EmptyTable(Pow2(Stride(0)))
    else Step(Exec(ops[..|ops| - 1], words), ops[|ops| - 1])
  }

  ghost function SpecExec(ops: seq<Op>): seq<Route> {
    if ops == [] then [] else SpecStep(SpecExec(ops[..|ops| - 1]), ops[|ops| - 1])
  }

  lemma StepRep(t: seq<Node>, rs: seq<Route>, op: Op)
    requires Fits(op.route, |op.route.prefix|) && |op.route.prefix| > 0
    requires RepTable(t, 0, rs) && Reach(rs, 0, |op.route.prefix|)
    ensures RepTable(Step(t, op), 0, SpecStep(rs, op)) && Reach(SpecStep(rs, op), 0, |op.route.prefix|)
  {
    hide RepTable, HasRoute, Keep, SameRoute, Expansion, TrieHas, AddTable, DelTable;
    var q := op.route;
    assert AllAgree(rs, q.prefix, 0);
    TrieHasRoute(t, 0, rs, q);
    AddTableRep(t, 0, rs, q, Expansion(0, q.len));
    DelTableRep(t, 0, rs, q);
    if !HasRoute(rs, q) {
      MinusAbsent(rs, q);
    }
  }

  lemma MinusAbsent(rs: seq<Route>, q: Route)
    requires !HasRoute(rs, q)
    ensures Minus(rs, q) == rs
  {
    hide SameRoute, Keep;
    KeepAll(rs, (x: Route) => !SameRoute(x, q));
  }

  lemma {:induction false} ExecRep(ops: seq<Op>, words: nat)
    requires OpsFit(ops, words)
    ensures RepTable(Exec(ops, words), 0, SpecExec(ops)) && Reach(SpecExec(ops), 0, words)
  {
    hide RepTable, Step, SpecStep;
    if ops == [] {
      EmptyRep(EmptyTable(Pow2(Stride(0))), 0);
    } else {
      var last := ops[|ops| - 1];
      assert last in ops;
      ExecRep(ops[..|ops| - 1], words);
      StepRep(Exec(ops[..|ops| - 1], words), SpecExec(ops[..|ops| - 1]), last);
    }
  }

  /** After every run, looking an address up in the trie gives what a linear scan of
      the routes added and not deleted gives: a longest covering prefix, and of those
      the one added last. No table in the trie is empty. */
  lemma EveryRun(ops: seq<Op>, dst: Address)
    requires OpsFit(ops, |dst|)
    ensures Shape(Exec(ops, |dst|), 0, |dst|) && AllFit(SpecExec(ops), |dst|)
    ensures LookupTable(Exec(ops, |dst|), 0, dst) == Scan(SpecExec(ops), dst)
    ensures NoEmptyTable(Exec(ops, |dst|))
  {
    hide RepTable, Exec, SpecExec, NoEmptyTable, Shape;
    var t, rs := Exec(ops, |dst|), SpecExec(ops);
    ExecRep(ops, |dst|);
    RepShape(t, 0, rs, |dst|);
    assert AllAgree(rs, dst, 0);
    LookupIsScan(t, 0, dst, rs);
    RepNoEmptyTable(t, 0, rs, |dst|);
  }

  /** Two runs that leave the same routes in the same order leave the same trie. */
  lemma SameRoutesSameTrie(ops: seq<Op>, other: seq<Op>, words: nat)
    requires OpsFit(ops, words) && OpsFit(other, words) && SpecExec(ops) == SpecExec(other)
    ensures Exec(ops, words) == Exec(other, words)
  {
    hide RepTable, Exec, SpecExec;
    ExecRep(ops, words);
    ExecRep(other, words);
    RepUnique(Exec(ops, words), Exec(other, words), 0, SpecExec(ops));
  }
}
