/** Consequences of the representation: what identifies a route in an entry, how
    many copies of it there are, and what an add followed by a delete leaves. */
module TrieLaws {
  import opened AddressBits
  import opened Arithmetic
  import opened Routes
  import opened Trie

  ghost predicate HasRoute(rs: seq<Route>, q: Route) {
    exists r :: r in rs && SameRoute(r, q)
  }

  /** No two routes name the same one, and no record is listed twice. */
  ghost predicate Distinct(rs: seq<Route>) {
    && (forall r, x | r in rs && x in rs && SameRoute(r, x) :: r == x)
    && (forall r | r in rs :: multiset(rs)[r] == 1)
  }

  lemma {:induction false} KeepCount(rs: seq<Route>, p: Route -> bool, r: Route)
    ensures multiset(Keep(rs, p))[r] == if p(r) then multiset(rs)[r] else 0
  {
    if rs != [] {
      KeepCount(rs[1..], p, r);
      assert rs == [rs[0]] + rs[1..];
    }
  }

  lemma KeepDistinct(rs: seq<Route>, p: Route -> bool)
    requires Distinct(rs)
    ensures Distinct(Keep(rs, p))
  {
    hide SameRoute;
    forall r | r in Keep(rs, p)
      ensures multiset(Keep(rs, p))[r] == 1
    {
      KeepCount(rs, p, r);
    }
  }

  lemma AddDistinct(rs: seq<Route>, r: Route)
    requires Distinct(rs) && !HasRoute(rs, r) && Fits(r, |r.prefix|)
    ensures Distinct([r] + rs)
  {
    hide Bit;
    assert SameRoute(r, r);
    forall x | x in rs
      ensures !SameRoute(x, r) && !SameRoute(r, x)
    {
    }
  }

  // ----- what is found in an entry

  /** An entry the route expands to holds a record with its id and length exactly
      when the route set holds the route, and then it is that record. */
  lemma FoundInEntry(t: seq<Node>, off: nat, rs: seq<Route>, q: Route, i: nat)
    requires RepTable(t, off, rs) && Reach(rs, off, |q.prefix|) && AllAgree(rs, q.prefix, off)
    requires Fits(q, |q.prefix|) && (off == 0 || q.len > off) && q.len <= off + Stride(off)
    requires i < |t| && Touches(q, off, i)
    ensures forall x :: x in t[i].head && Identify(x, q.id, q.len) <==> x in rs && SameRoute(x, q)
  {
    hide Touches, Keep, Sorted, SameRoute, Agree;
    var e, sub := off + Stride(off), Through(rs, off, i);
    RepAt(t, off, rs, i);
    SortedMembers(Near(sub, e));
    forall x
      ensures x in t[i].head && Identify(x, q.id, q.len) <==> x in rs && SameRoute(x, q)
    {
      if x in rs {
        SameInEntry(x, q, off, i);
        assert SameRoute(x, q) ==> x.len == q.len by { SameRouteLen(x, q); }
      }
    }
  }

  lemma SameRouteLen(r: Route, q: Route)
    ensures SameRoute(r, q) ==> r.len == q.len && r.id == q.id
  {
  }

  /** A route that goes on below an entry is in the set exactly when it is among
      the routes of the table below. */
  lemma FoundBelow(off: nat, rs: seq<Route>, q: Route, i: nat, x: Route)
    requires Reach(rs, off, |q.prefix|) && AllAgree(rs, q.prefix, off)
    requires Fits(q, |q.prefix|) && q.len > off + Stride(off) && Touches(q, off, i)
    ensures x in Far(Through(rs, off, i), off + Stride(off)) && SameRoute(x, q) <==> x in rs && SameRoute(x, q)
  {
    hide Touches, Keep, SameRoute, Agree;
    if x in rs {
      SameInEntry(x, q, off, i);
      SameRouteLen(x, q);
    }
  }

  /** The routes that go on below an entry with q agree with it that far. */
  lemma AgreeAll(off: nat, rs: seq<Route>, q: Route, i: nat)
    requires Reach(rs, off, |q.prefix|) && AllAgree(rs, q.prefix, off)
    requires Fits(q, |q.prefix|) && q.len > off + Stride(off) && Touches(q, off, i)
    ensures AllAgree(Far(Through(rs, off, i), off + Stride(off)), q.prefix, off + Stride(off))
  {
    hide Touches, Keep, Agree;
    forall r | r in Far(Through(rs, off, i), off + Stride(off))
      ensures Agree(r.prefix, q.prefix, off + Stride(off))
    {
      AgreeBelow(r, q, off, i);
    }
  }

  // ----- which entries a prefix expands to

  /** Round down to a multiple of d. */
  function Floor(i: nat, d: nat): (f: nat)
    requires d > 0
    ensures f <= i
  {
    i - i % d
  }

  /** First entry of the run of `Span` entries that a prefix takes up. */
  function Base(q: Route, off: nat): nat
    requires Level(off) && off < 32 * |q.prefix|
  {
    Floor(Entry(q.prefix, off), Span(off, q.len))
  }

  lemma SameQuotient(i: nat, j: nat, d: nat)
    requires d > 0
    ensures i / d == j / d <==> d * (j / d) <= i < d * (j / d) + d
    ensures i / d == j / d ==> i % d == i - d * (j / d)
  {
    DivModEq(i, d);
    DivModEq(j, d);
    if d * (j / d) <= i < d * (j / d) + d {
      DivModUnique(i, d, j / d, i - d * (j / d));
    }
  }

  /** The entries touched are a run of `Span` entries inside the table. */
  lemma TouchedRun(q: Route, off: nat, i: nat)
    requires Level(off) && off < 32 * |q.prefix|
    ensures Touches(q, off, i) <==> Base(q, off) <= i < Base(q, off) + Span(off, q.len)
    ensures Base(q, off) + Span(off, q.len) <= Pow2(Stride(off))
  {
    hide Pow2, Entry;
    var d, j, s := Span(off, q.len), Entry(q.prefix, off), Stride(off);
    SameQuotient(i, j, d);
    DivModEq(j, d);
    var l := if q.len >= off + s then s else if q.len <= off then 0 else q.len - off;
    assert Span(off, q.len) == Pow2(s - l);
    RunInside(j, s, l);
  }

  /** The position of an entry in its run. */
  lemma TouchedOffset(q: Route, off: nat, i: nat)
    requires Touches(q, off, i)
    ensures i % Span(off, q.len) == i - Base(q, off)
  {
    hide Pow2, Entry, Span;
    var d, j := Span(off, q.len), Entry(q.prefix, off);
    SameQuotient(i, j, d);
    DivModEq(j, d);
  }

  lemma RunInside(j: nat, s: nat, l: nat)
    requires l <= s && j < Pow2(s)
    ensures Pow2(s - l) * (j / Pow2(s - l)) + Pow2(s - l) <= Pow2(s)
  {
    hide Pow2;
    var d, q := Pow2(s - l), j / Pow2(s - l);
    Pow2Add(s - l, l);
    DivModEq(j, d);
    if q >= Pow2(l) {
      MulMono(d, Pow2(l), q);
      assert false;
    }
    MulMono(d, q + 1, Pow2(l));
    MulSum(d, q, 1);
  }

  // ----- how many copies of a record the trie holds

  ghost function HeldTable(t: seq<Node>, k: nat): multiset<Route>
    requires k <= |t|
    decreases t, k
  {
    if k == 0 then multiset{} else HeldTable(t, k - 1) + HeldNode(t[k - 1])
  }

  ghost function HeldNode(n: Node): multiset<Route>
    decreases n, 0
  {
    multiset(n.head) + HeldTable(n.next, |n.next|)
  }

  ghost function Held(t: seq<Node>): multiset<Route> {
    HeldTable(t, |t|)
  }

  lemma {:induction false} HeldAbsent(t: seq<Node>, off: nat, rs: seq<Route>, r: Route, k: nat)
    requires RepTable(t, off, rs) && r !in rs && k <= |t|
    ensures HeldTable(t, k)[r] == 0
    decreases t, k
  {
    hide Touches, Keep, Sorted, RepNode;
    if k > 0 {
      HeldAbsent(t, off, rs, r, k - 1);
      RepAt(t, off, rs, k - 1);
      HeldAbsentNode(t[k - 1], off + Stride(off), Through(rs, off, k - 1), r);
    }
  }

  lemma {:induction false} HeldAbsentNode(n: Node, off: nat, rs: seq<Route>, r: Route)
    requires RepNode(n, off, rs) && r !in rs
    ensures HeldNode(n)[r] == 0
    decreases n, 0
  {
    hide Touches, Keep, Sorted, RepTable;
    SortedMembers(Near(rs, off));
    if n.next != [] {
      HeldAbsent(n.next, off, Far(rs, off), r, |n.next|);
    }
  }

  /** One entry holds a route that ends there once, and one that goes on as often
      as the table below does. */
  lemma {:induction false} HeldInNode(n: Node, off: nat, rs: seq<Route>, r: Route, words: nat)
    requires Level(off) && RepNode(n, off, rs) && multiset(rs)[r] == 1
    requires Reach(Far(rs, off), off, words) && (Far(rs, off) != [] ==> off < 32 * words)
    ensures HeldNode(n)[r] == if r.len <= off then 1 else Expansion(off, r.len)
    decreases n, 1
  {
    hide Touches, Keep, Sorted, RepTable, Expansion;
    SortedMembers(Near(rs, off));
    KeepCount(rs, (x: Route) => x.len <= off, r);
    KeepCount(rs, (x: Route) => x.len > off, r);
    if r.len <= off {
      if n.next != [] {
        HeldAbsent(n.next, off, Far(rs, off), r, |n.next|);
      }
    } else {
      assert r in Far(rs, off);
      HeldCount(n.next, off, Far(rs, off), r, words);
    }
  }

  /** A route of the set is held in exactly the entries its prefix expands to. */
  lemma {:induction false} HeldCount(t: seq<Node>, off: nat, rs: seq<Route>, r: Route, words: nat)
    requires RepTable(t, off, rs) && Reach(rs, off, words) && off < 32 * words && multiset(rs)[r] == 1
    ensures off <= r.len && Held(t)[r] == Expansion(off, r.len)
    decreases t, |t| + 1
  {
    hide Touches, Keep, Sorted, RepTable, Entry;
    assert r in rs;
    TouchedRun(r, off, 0);
    assert |t| == Pow2(Stride(off)) by { RepSize(t, off, rs); }
    HeldUpTo(t, off, rs, r, words, |t|);
  }

  lemma RepSize(t: seq<Node>, off: nat, rs: seq<Route>)
    requires RepTable(t, off, rs)
    ensures |t| == Pow2(Stride(off))
  {
  }

  /** How much of the run [base, base + span) lies below k. */
  function Below(k: nat, base: nat, span: nat): nat {
    if k <= base then 0 else if k >= base + span then span else k - base
  }

  lemma {:induction false} HeldUpTo(t: seq<Node>, off: nat, rs: seq<Route>, r: Route, words: nat, k: nat)
    requires RepTable(t, off, rs) && Reach(rs, off, words) && off < 32 * words && multiset(rs)[r] == 1
    requires k <= |t|
    ensures r in rs && off <= r.len
    ensures HeldTable(t, k)[r] ==
            var n := Below(k, Base(r, off), Span(off, r.len));
            if r.len <= off + Stride(off) then n else if n == 0 then 0 else Expansion(off + Stride(off), r.len)
    decreases t, k
  {
    hide Touches, Keep, Sorted, RepNode, Expansion, Entry, Base;
    assert r in rs;
    if k > 0 {
      var i, e := k - 1, off + Stride(off);
      var sub := Through(rs, off, i);
      HeldUpTo(t, off, rs, r, words, i);
      RepAt(t, off, rs, i);
      TouchedRun(r, off, i);
      KeepCount(rs, (x: Route) => Touches(x, off, i), r);
      FarReach(rs, off, i, words);
      if Touches(r, off, i) {
        HeldInNode(t[i], e, sub, r, words);
      } else {
        HeldAbsentNode(t[i], e, sub, r);
      }
    }
  }

  // ----- add then delete

  /** Deleting a route that was just added gives back the very same trie: every
      list in its old order, every table created on the way released again. */
  lemma AddThenDelete(t: seq<Node>, rs: seq<Route>, r: Route)
    requires RepTable(t, 0, rs) && Reach(rs, 0, |r.prefix|) && Fits(r, |r.prefix|)
    requires !HasRoute(rs, r)
    ensures DelTable(AddTable(t, 0, r, Expansion(0, r.len)), 0, r) == t
  {
    hide RepTable, Keep, SameRoute, Expansion;
    AddTableRep(t, 0, rs, r, Expansion(0, r.len));
    var u := AddTable(t, 0, r, Expansion(0, r.len));
    DelTableRep(u, 0, [r] + rs, r);
    KeepCons(r, rs, (x: Route) => !SameRoute(x, r));
    KeepAll(rs, (x: Route) => !SameRoute(x, r));
    assert SameRoute(r, r) by { SameRouteSelf(r); }
    assert Minus([r] + rs, r) == rs;
    RepUnique(DelTable(u, 0, r), t, 0, rs);
  }

  lemma SameRouteSelf(r: Route)
    requires Fits(r, |r.prefix|)
    ensures SameRoute(r, r)
  {
  }

  /** Every table in the trie has something in it. */
  ghost predicate NoEmptyTable(t: seq<Node>)
    decreases t
  {
    forall i | 0 <= i < |t| :: t[i].next == [] || (!AllEmpty(t[i].next) && NoEmptyTable(t[i].next))
  }

  lemma {:induction false} RepNoEmptyTable(t: seq<Node>, off: nat, rs: seq<Route>, words: nat)
    requires RepTable(t, off, rs) && Reach(rs, off, words) && off < 32 * words
    ensures NoEmptyTable(t)
    decreases t
  {
    hide Touches, Keep, Sorted, Reach, RepTable, AllEmpty;
    forall i | 0 <= i < |t|
      ensures t[i].next == [] || (!AllEmpty(t[i].next) && NoEmptyTable(t[i].next))
    {
      var e := off + Stride(off);
      var far := Far(Through(rs, off, i), e);
      RepAt(t, off, rs, i);
      FarReach(rs, off, i, words);
      if far != [] {
        RepEmpty(t[i].next, e, far, words);
        RepNoEmptyTable(t[i].next, e, far, words);
      }
    }
  }

  /** The references a route set accounts for. */
  lemma HeldIs(t: seq<Node>, rs: seq<Route>, words: nat, x: Route)
    requires RepTable(t, 0, rs) && Reach(rs, 0, words) && Distinct(rs)
    ensures Held(t)[x] == if x in rs then Expansion(0, x.len) else 0
  {
    hide RepTable, Reach, SameRoute, Expansion, Held;
    if x in rs {
      HeldAll(t, rs, words, x);
    } else {
      HeldNone(t, rs, x);
    }
  }

  lemma HeldAll(t: seq<Node>, rs: seq<Route>, words: nat, x: Route)
    requires RepTable(t, 0, rs) && Reach(rs, 0, words) && Distinct(rs) && x in rs
    ensures Held(t)[x] == Expansion(0, x.len)
  {
    hide RepTable, SameRoute, Expansion, Held;
    HeldCount(t, 0, rs, x, words);
  }

  lemma HeldNone(t: seq<Node>, rs: seq<Route>, x: Route)
    requires RepTable(t, 0, rs) && x !in rs
    ensures Held(t)[x] == 0
  {
    hide RepTable;
    HeldAbsent(t, 0, rs, x, |t|);
  }

  /** Adding a route adds as many references as its prefix has entries. */
  lemma HeldAfterAdd(t: seq<Node>, rs: seq<Route>, r: Route)
    requires RepTable(t, 0, rs) && Reach(rs, 0, |r.prefix|) && Fits(r, |r.prefix|) && Distinct(rs)
    requires !HasRoute(rs, r)
    ensures Distinct([r] + rs) && RepTable(AddTable(t, 0, r, Expansion(0, r.len)), 0, [r] + rs)
    ensures Held(AddTable(t, 0, r, Expansion(0, r.len))) == Held(t)[r := Expansion(0, r.len)]
  {
    hide RepTable, SameRoute, Expansion, Held, Distinct, AddTable;
    var u, n := AddTable(t, 0, r, Expansion(0, r.len)), Expansion(0, r.len);
    AddDistinct(rs, r);
    AddTableRep(t, 0, rs, r, n);
    forall x: Route
      ensures Held(u)[x] == Held(t)[r := n][x]
    {
      HeldIs(t, rs, |r.prefix|, x);
      HeldIs(u, [r] + rs, |r.prefix|, x);
    }
  }

  /** Deleting a route takes away every reference to its record. */
  lemma HeldAfterDelete(t: seq<Node>, rs: seq<Route>, q: Route, r: Route)
    requires RepTable(t, 0, rs) && Reach(rs, 0, |q.prefix|) && Fits(q, |q.prefix|) && Distinct(rs)
    requires r in rs && SameRoute(r, q)
    ensures Distinct(Minus(rs, q)) && RepTable(DelTable(t, 0, q), 0, Minus(rs, q))
    ensures forall x :: x in Minus(rs, q) <==> x in rs && x != r
    ensures Held(DelTable(t, 0, q)) == Held(t)[r := 0]
  {
    hide RepTable, SameRoute, Expansion, Held, DelTable, Keep;
    var u, ks := DelTable(t, 0, q), Minus(rs, q);
    KeepDistinct(rs, (x: Route) => !SameRoute(x, q));
    assert AllAgree(rs, q.prefix, 0);
    DelTableRep(t, 0, rs, q);
    forall x | x in rs && SameRoute(x, q)
      ensures x == r
    {
      SameRouteJoin(x, r, q);
    }
    forall x: Route
      ensures Held(u)[x] == Held(t)[r := 0][x]
    {
      HeldIs(t, rs, |q.prefix|, x);
      HeldIs(u, ks, |q.prefix|, x);
    }
  }

  lemma SameRouteJoin(x: Route, r: Route, q: Route)
    requires SameRoute(x, q) && SameRoute(r, q)
    ensures SameRoute(x, r)
  {
    hide Bit;
  }

  /** An add that places anything at all changes the trie. */
  lemma {:induction false} AddChanges(t: seq<Node>, off: nat, r: Route, m: nat)
    requires Level(off) && off < 32 * |r.prefix| && off <= r.len && |t| == Pow2(Stride(off)) && m > 0
    requires Fits(r, |r.prefix|) && Shape(t, off, |r.prefix|)
    ensures AddTable(t, off, r, m) != t
    decreases r.len + 16 - off
  {
    hide Touches, Entry, Pow2, Span, Base;
    var j, e := Base(r, off), off + Stride(off);
    TouchedRun(r, off, j);
    TouchedOffset(r, off, j);
    assert AddTable(t, off, r, m)[j] == AddNode(t[j], e, r, m);
    if r.len <= e {
      InsertMembers(t[j].head, r);
    } else if t[j].next != [] {
      AddChanges(t[j].next, e, r, m);
    }
  }
}
