/** The trie operations one entry at a time, and the reference counts that go with
    them: what the loops of the forwarding table compute. */
module TrieSteps {
  import opened Arithmetic
  import opened Routes
  import opened Trie
  import opened TrieLaws

  // ----- reference counts and the records they keep alive

  /** Reference counts, the records allocated and not freed, and whether a record
      has been freed twice. */
  datatype Ledger = Ledger(refs: multiset<Route>, records: set<Route>, fault: bool)

  ghost function Pulls(m: Ledger, r: Route, n: nat): Ledger {
    m.(refs := m.refs[r := m.refs[r] + n])
  }

  ghost function Freed(m: Ledger, r: Route): Ledger {
    m.(records := m.records - {r}, fault := m.fault || r !in m.records)
  }

  /** Drop one reference; the last one frees the record. */
  ghost function Put(m: Ledger, r: Route): Ledger {
    var n := if r in m.refs then m.refs[r] - 1 else 0;
    var k := m.(refs := m.refs[r := n]);
    if n == 0 then Freed(k, r) else k
  }

  ghost function Puts(m: Ledger, r: Route, n: nat): Ledger {
    if n == 0 then m else Put(Puts(m, r, n - 1), r)
  }

  lemma SetTwice(refs: multiset<Route>, r: Route, a: nat, b: nat)
    ensures refs[r := a][r := b] == refs[r := b]
  {
  }

  lemma SetSame(refs: multiset<Route>, r: Route)
    ensures refs[r := refs[r]] == refs
  {
  }

  lemma {:induction false} PutsSome(m: Ledger, r: Route, n: nat)
    requires n < m.refs[r]
    ensures Puts(m, r, n) == m.(refs := m.refs[r := m.refs[r] - n])
  {
    if n == 0 {
      SetSame(m.refs, r);
    } else {
      PutsSome(m, r, n - 1);
      SetTwice(m.refs, r, m.refs[r] - (n - 1), m.refs[r] - n);
    }
  }

  lemma PutsStep(m: Ledger, r: Route, n: nat)
    requires n > 0
    ensures Puts(m, r, n) == Put(Puts(m, r, n - 1), r)
  {
  }

  /** Dropping every reference frees the record, once. */
  lemma PutsAll(m: Ledger, r: Route)
    requires r in m.refs
    ensures Puts(m, r, m.refs[r]) == Freed(m.(refs := m.refs[r := 0]), r)
  {
    hide Puts;
    PutsStep(m, r, m.refs[r]);
    PutsSome(m, r, m.refs[r] - 1);
    SetTwice(m.refs, r, 1, 0);
  }

  /** What a failed add leaves in the ledger: nothing, if nothing was placed; and a
      record freed twice, if what was placed has been taken back. */
  lemma FailedLedger(m: Ledger, r: Route, placed: nat)
    requires r !in m.records && m.refs[r] == 0
    ensures var k := Pulls(m.(records := m.records + {r}), r, placed);
            && (placed == 0 ==> Freed(k, r) == m && Freed(Puts(k, r, placed), r) == m)
            && (placed > 0 ==> Freed(Puts(k, r, placed), r).fault)
  {
    hide Puts;
    var k := Pulls(m.(records := m.records + {r}), r, placed);
    SetSame(m.refs, r);
    if placed == 0 {
      PutsNone(k, r);
      assert m.records + {r} - {r} == m.records;
    } else {
      PutsAll(k, r);
    }
  }

  lemma PutsNone(m: Ledger, r: Route)
    ensures Puts(m, r, 0) == m
  {
  }

  /** Every route of the set has a reference. */
  ghost predicate Counted(rs: seq<Route>, m: Ledger) {
    forall x | x in rs :: x in m.refs
  }

  lemma PutsCounted(rs: seq<Route>, m: Ledger, r: Route, n: nat)
    requires Counted(rs, m) && n < m.refs[r]
    ensures Counted(rs, Puts(m, r, n)) && r in Puts(m, r, n).refs
  {
    PutsSome(m, r, n);
  }

  lemma PullsCounted(rs: seq<Route>, m: Ledger, r: Route, n: nat)
    requires Counted(rs, m)
    ensures Counted(rs, Pulls(m, r, n)) && Pulls(m, r, n).refs[r] == m.refs[r] + n
  {
  }

  // ----- how far an add gets when only so many requests for memory succeed

  /** Tables that have to be created before the route can be placed. */
  ghost function MissingNode(n: Node, off: nat, r: Route): nat
    requires Level(off) && off <= r.len + 16 && Fits(r, |r.prefix|)
    decreases r.len + 16 - off, 1
  {
    if r.len <= off then 0
    else if n.next == [] then 1 + MissingNode(EMPTY, off + Stride(off), r)
    else MissingTable(n.next, off, r)
  }

  ghost function MissingTable(t: seq<Node>, off: nat, r: Route): nat
    requires Level(off) && off <= r.len && Fits(r, |r.prefix|)
    decreases r.len + 16 - off, 0
  {
    var e := off + Stride(off);
    if r.len <= e then 0
    else
      hide Entry, Pow2, Stride;
      assert Level(e);
      var i := Entry(r.prefix, off);
      if i < |t| then MissingNode(t[i], e, r) else 0
  }

  /** Copies placed when `grant` requests succeed, `missing` of them for tables. */
  function Placed(grant: nat, missing: nat, expansion: nat): nat {
    if grant <= missing then 0 else if grant - missing >= expansion then expansion else grant - missing
  }

  /** One more entry of the run. */
  lemma AddTableStep(t: seq<Node>, off: nat, r: Route, m: nat)
    requires Level(off) && off < 32 * |r.prefix| && off <= r.len <= off + Stride(off)
    requires |t| == Pow2(Stride(off)) && m < Span(off, r.len)
    ensures var j := Base(r, off) + m;
            && j < |t| && AddTable(t, off, r, m)[j] == t[j]
            && AddTable(t, off, r, m + 1) == AddTable(t, off, r, m)[j := t[j].(head := Insert(t[j].head, r))]
  {
    hide Touches, Entry, Pow2, Insert, Span, Base;
    var j := Base(r, off) + m;
    TouchedRun(r, off, j);
    TouchedOffset(r, off, j);
    var u, v := AddTable(t, off, r, m), AddTable(t, off, r, m + 1);
    forall i | 0 <= i < |t|
      ensures v[i] == if i == j then t[j].(head := Insert(t[j].head, r)) else u[i]
    {
      TouchedRun(r, off, i);
      if Touches(r, off, i) { TouchedOffset(r, off, i); }
      assert AddNode(t[i], off + Stride(off), r, m) == t[i].(head := Insert(t[i].head, r));
      assert AddNode(t[i], off + Stride(off), r, m + 1) == t[i].(head := Insert(t[i].head, r));
    }
  }

  lemma SpanOne(off: nat, len: nat)
    requires len >= off + Stride(off)
    ensures Span(off, len) == 1
  {
  }

  /** A route that goes on below changes one entry only. */
  lemma AddTableBelow(t: seq<Node>, off: nat, r: Route, m: nat)
    requires Level(off) && off < 32 * |r.prefix| && r.len > off + Stride(off)
    requires |t| == Pow2(Stride(off)) && m > 0
    ensures var i := Entry(r.prefix, off);
            AddTable(t, off, r, m) == t[i := AddNode(t[i], off + Stride(off), r, m)]
  {
    hide Entry, Pow2, Insert, AddNode;
    var i := Entry(r.prefix, off);
    SpanOne(off, r.len);
    forall j | 0 <= j < |t|
      ensures Touches(r, off, j) <==> j == i
    {
    }
  }

  /** Something was placed, so the table is not empty. */
  lemma AddNotEmpty(t: seq<Node>, off: nat, r: Route, m: nat)
    requires Level(off) && off < 32 * |r.prefix| && off <= r.len && |t| == Pow2(Stride(off)) && m > 0
    ensures !AllEmpty(AddTable(t, off, r, m))
  {
    hide Touches, Entry, Pow2, Span, Base;
    var j := Base(r, off);
    TouchedRun(r, off, j);
    TouchedOffset(r, off, j);
    assert j < |t| && AddTable(t, off, r, m)[j] == AddNode(t[j], off + Stride(off), r, m);
    assert AddNode(t[j], off + Stride(off), r, m) != EMPTY;
  }

  /** Entry j of a table, with only its list replaced. */
  ghost function WithHead(n: Node, j: nat, l: seq<Route>): Node
    requires j < |n.next|
  {
    n.(next := n.next[j := n.next[j].(head := l)])
  }

  ghost predicate NoMatch(l: seq<Route>, id: int, len: nat) {
    forall x | x in l :: !Identify(x, id, len)
  }

  /** A route that goes on below is in the set exactly when the table below has it. */
  lemma HasBelow(off: nat, rs: seq<Route>, q: Route, i: nat)
    requires Reach(rs, off, |q.prefix|) && AllAgree(rs, q.prefix, off)
    requires Fits(q, |q.prefix|) && q.len > off + Stride(off) && Touches(q, off, i)
    ensures HasRoute(Far(Through(rs, off, i), off + Stride(off)), q) <==> HasRoute(rs, q)
  {
    hide Touches, Keep, SameRoute, AllAgree;
    forall x: Route
      ensures x in Far(Through(rs, off, i), off + Stride(off)) && SameRoute(x, q) <==> x in rs && SameRoute(x, q)
    {
      FoundBelow(off, rs, q, i, x);
    }
  }

  /** The list of an entry in the run is sorted, and holds the route's id and
      length exactly when the route is in the set. */
  lemma EntryLists(t: seq<Node>, off: nat, rs: seq<Route>, q: Route, j: nat)
    requires RepTable(t, off, rs) && Reach(rs, off, |q.prefix|) && AllAgree(rs, q.prefix, off)
    requires Fits(q, |q.prefix|) && (off == 0 || q.len > off) && q.len <= off + Stride(off)
    requires j < |t| && Touches(q, off, j)
    ensures Descending(t[j].head)
    ensures NoMatch(t[j].head, q.id, q.len) <==> !HasRoute(rs, q)
  {
    hide Touches, Keep, Sorted, SameRoute, AllAgree;
    FoundInEntry(t, off, rs, q, j);
    RepAt(t, off, rs, j);
    SortedDescending(Near(Through(rs, off, j), off + Stride(off)));
  }

  /** At most one listed route has this id and length. */
  ghost predicate Single(l: seq<Route>, id: int, len: nat) {
    forall i, j | 0 <= i < j < |l| :: !(Identify(l[i], id, len) && Identify(l[j], id, len))
  }

  lemma {:induction false} DropAt(l: seq<Route>, id: int, len: nat, k: nat)
    requires k < |l| && Identify(l[k], id, len) && Single(l, id, len)
    ensures Drop(l, id, len) == l[..k] + l[k + 1..]
  {
    if k == 0 {
      assert forall x | x in l[1..] :: !Identify(x, id, len);
      KeepAll(l[1..], (x: Route) => !Identify(x, id, len));
      assert l[..0] + l[1..] == l[1..];
    } else {
      DropAt(l[1..], id, len, k - 1);
      assert l[..k] + l[k + 1..] == [l[0]] + (l[1..][..k - 1] + l[1..][k..]);
    }
  }

  /** A table with the route placed in entries lo up to hi. */
  ghost function Added(t: seq<Node>, r: Route, lo: nat, hi: nat): (u: seq<Node>)
    ensures |u| == |t|
  {
    seq(|t|, j requires 0 <= j < |t| => if lo <= j < hi then t[j].(head := Insert(t[j].head, r)) else t[j])
  }

  lemma AddedNone(t: seq<Node>, r: Route, k: nat)
    ensures Added(t, r, k, k) == t
  {
  }

  lemma AddedStep(t: seq<Node>, r: Route, lo: nat, hi: nat)
    requires lo < hi && lo < |t|
    ensures Added(t, r, lo, hi)[lo] == t[lo].(head := Insert(t[lo].head, r))
    ensures Added(t, r, lo + 1, hi) == Added(t, r, lo, hi)[lo := t[lo]]
  {
    hide Insert;
  }

  /** What a partial expansion looks like, entry by entry. */
  lemma AddedRun(t: seq<Node>, off: nat, r: Route, m: nat)
    requires Level(off) && off < 32 * |r.prefix| && off <= r.len <= off + Stride(off)
    requires |t| == Pow2(Stride(off)) && m <= Span(off, r.len)
    ensures AddTable(t, off, r, m) == Added(t, r, Base(r, off), Base(r, off) + m)
  {
    hide Touches, Entry, Pow2, Insert, Span, Base;
    var base := Base(r, off);
    forall j | 0 <= j < |t|
      ensures AddTable(t, off, r, m)[j] == Added(t, r, base, base + m)[j]
    {
      TouchedRun(r, off, j);
      if Touches(r, off, j) { TouchedOffset(r, off, j); }
      assert AddNode(t[j], off + Stride(off), r, m) == t[j].(head := Insert(t[j].head, r));
    }
  }

  /** Deleting from an entry the copy just placed there gives back its list. */
  lemma InsertedThenDropped(t: seq<Node>, rs: seq<Route>, r: Route, j: nat)
    requires RepTable(t, 0, rs) && Reach(rs, 0, |r.prefix|) && Fits(r, |r.prefix|) && r.len <= 16
    requires j < |t| && Touches(r, 0, j) && !HasRoute(rs, r)
    ensures var l := Insert(t[j].head, r);
            && Single(l, r.id, r.len) && r in l && Drop(l, r.id, r.len) == t[j].head
            && forall x | x in l :: x == r || x in rs
  {
    hide Touches, Keep, Insert, SameRoute, RepTable;
    var h, p := t[j].head, (x: Route) => !Identify(x, r.id, r.len);
    EntryLists(t, 0, rs, r, j);
    EntrySubset(t, 0, rs, j);
    InsertMembers(h, r);
    KeepInsert(h, r, p);
    KeepAll(h, p);
    InsertSingle(h, r);
  }

  lemma EntrySubset(t: seq<Node>, off: nat, rs: seq<Route>, j: nat)
    requires RepTable(t, off, rs) && j < |t|
    ensures forall x | x in t[j].head :: x in rs
  {
    hide Touches, Keep, Sorted;
    RepAt(t, off, rs, j);
    SortedMembers(Near(Through(rs, off, j), off + Stride(off)));
  }

  lemma {:induction false} InsertSingle(l: seq<Route>, r: Route)
    requires NoMatch(l, r.id, r.len)
    ensures Single(Insert(l, r), r.id, r.len)
  {
    if l != [] && l[0].len > r.len {
      InsertSingle(l[1..], r);
    }
  }

  /** Memory runs out after the first copy of a new route and before the last. */
  ghost predicate Torn(rs: seq<Route>, t: seq<Node>, r: Route, grant: nat)
    requires Fits(r, |r.prefix|)
  {
    && !HasRoute(rs, r)
    && 1 + MissingTable(t, 0, r) < grant < 1 + MissingTable(t, 0, r) + Expansion(0, r.len)
  }

  /** A default route added to an empty table, with memory for the record and one copy up
      to all but one: copies in the first table have to be taken back. */
  lemma DefaultRouteTorn(r: Route, grant: nat)
    requires |r.prefix| > 0 && r.len == 0 && 2 <= grant <= 0x1_0000
    ensures Torn([], EmptyTable(Pow2(16)), r, grant)
  {
    ShortPrefix(EmptyTable(Pow2(16)), r);
    Pow2Add(8, 8);
    assert Pow2(8) == 256;
  }

  /** A route of length 17 added to an empty table, with memory for the record, the table
      below and some of the 128 copies: those stay. */
  lemma LongerRouteTorn(r: Route, grant: nat)
    requires |r.prefix| > 0 && r.len == 17 && 3 <= grant < 130
    ensures Torn([], EmptyTable(Pow2(16)), r, grant)
  {
    var t := EmptyTable(Pow2(16));
    assert Expansion(0, 17) == Expansion(16, 17) == Span(16, 17) == Pow2(7) == 128;
    assert MissingNode(EMPTY, 24, r) == 0;
    assert MissingNode(EMPTY, 16, r) == 1;
    assert t[Entry(r.prefix, 0)] == EMPTY;
  }

  /** A prefix of at most 16 bits needs no table and expands in the first one. */
  lemma ShortPrefix(t: seq<Node>, r: Route)
    requires Fits(r, |r.prefix|) && r.len <= 16
    ensures MissingTable(t, 0, r) == 0 && Expansion(0, r.len) == Span(0, r.len)
  {
  }

  lemma ReadyToAdd(t: seq<Node>, rs: seq<Route>, r: Route, words: nat)
    requires RepTable(t, 0, rs) && Reach(rs, 0, words) && Distinct(rs) && Fits(r, words) && r !in rs
    ensures AllAgree(rs, r.prefix, 0) && Held(t)[r] == 0 && forall x | x in rs :: x in Held(t)
  {
    hide RepTable, Held, Expansion, SameRoute;
    HeldIs(t, rs, words, r);
    forall x | x in rs
      ensures x in Held(t)
    {
      HeldIs(t, rs, words, x);
      assert Expansion(0, x.len) > 0;
    }
  }

  /** What a failed add leaves is the old trie exactly when nothing stayed behind. */
  lemma FailedAdd(t: seq<Node>, rs: seq<Route>, r: Route, placed: nat)
    requires RepTable(t, 0, rs) && Reach(rs, 0, |r.prefix|) && Fits(r, |r.prefix|)
    ensures placed == 0 ==> AddTable(t, 0, r, placed) == t
    ensures placed > 0 ==> !RepTable(AddTable(t, 0, r, placed), 0, rs)
  {
    hide RepTable, AddTable;
    AddNone(t, 0, r);
    if placed > 0 {
      RepSize(t, 0, rs);
      RepShape(t, 0, rs, |r.prefix|);
      AddChanges(t, 0, r, placed);
      if RepTable(AddTable(t, 0, r, placed), 0, rs) {
        RepUnique(AddTable(t, 0, r, placed), t, 0, rs);
      }
    }
  }

  /** A table with the route unlinked from entries lo up to hi. */
  ghost function Deleted(t: seq<Node>, q: Route, lo: nat, hi: nat): (u: seq<Node>)
    ensures |u| == |t|
  {
    seq(|t|, j requires 0 <= j < |t| =>
      if lo <= j < hi then t[j].(head := Drop(t[j].head, q.id, q.len)) else t[j])
  }

  lemma DeletedNone(t: seq<Node>, q: Route, lo: nat)
    ensures Deleted(t, q, lo, lo) == t
  {
  }

  lemma DeletedStep(t: seq<Node>, q: Route, lo: nat, j: nat)
    requires lo <= j < |t|
    ensures Deleted(t, q, lo, j)[j] == t[j]
    ensures Deleted(t, q, lo, j + 1) == Deleted(t, q, lo, j)[j := t[j].(head := Drop(t[j].head, q.id, q.len))]
  {
    hide Drop;
  }

  lemma DeletedRun(t: seq<Node>, off: nat, q: Route)
    requires Level(off) && off < 32 * |q.prefix| && off <= q.len <= off + Stride(off) && |t| == Pow2(Stride(off))
    ensures DelTable(t, off, q) == Deleted(t, q, Base(q, off), Base(q, off) + Span(off, q.len))
  {
    hide Touches, Entry, Pow2, Drop, Span, Base;
    forall j | 0 <= j < |t|
      ensures DelTable(t, off, q)[j] == Deleted(t, q, Base(q, off), Base(q, off) + Span(off, q.len))[j]
    {
      TouchedRun(q, off, j);
      assert DelNode(t[j], off + Stride(off), q) == t[j].(head := Drop(t[j].head, q.id, q.len));
    }
  }

  ghost function TheRoute(rs: seq<Route>, q: Route): (r: Route)
    requires HasRoute(rs, q)
    ensures r in rs && SameRoute(r, q)
  {
    var r :| r in rs && SameRoute(r, q);
    r
  }

  /** The record found in an entry is the route's own. */
  lemma EntryRoute(t: seq<Node>, off: nat, rs: seq<Route>, q: Route, j: nat, x: Route, r: Route)
    requires RepTable(t, off, rs) && Reach(rs, off, |q.prefix|) && AllAgree(rs, q.prefix, off) && Distinct(rs)
    requires Fits(q, |q.prefix|) && (off == 0 || q.len > off) && q.len <= off + Stride(off)
    requires j < |t| && Touches(q, off, j)
    requires x in t[j].head && Identify(x, q.id, q.len) && r in rs && SameRoute(r, q)
    ensures x == r
  {
    hide RepTable, Reach, AllAgree, SameRoute, Touches;
    FoundInEntry(t, off, rs, q, j);
    SameRouteJoin(x, r, q);
  }

  lemma EntrySingle(t: seq<Node>, off: nat, rs: seq<Route>, q: Route, j: nat)
    requires RepTable(t, off, rs) && Reach(rs, off, |q.prefix|) && AllAgree(rs, q.prefix, off) && Distinct(rs)
    requires Fits(q, |q.prefix|) && (off == 0 || q.len > off) && q.len <= off + Stride(off)
    requires j < |t| && Touches(q, off, j)
    ensures Single(t[j].head, q.id, q.len)
  {
    hide RepTable, Reach, AllAgree, SameRoute, Touches, Keep, Sorted;
    var l := t[j].head;
    forall i, k | 0 <= i < k < |l|
      ensures !(Identify(l[i], q.id, q.len) && Identify(l[k], q.id, q.len))
    {
      if Identify(l[i], q.id, q.len) && Identify(l[k], q.id, q.len) {
        FoundInEntry(t, off, rs, q, j);
        assert l[k] in l && l[i] in l;
        EntryRoute(t, off, rs, q, j, l[i], l[k]);
        EntryOnce(t, off, rs, j, l[k]);
        CountTwice(l, i, k);
      }
    }
  }

  lemma EntryOnce(t: seq<Node>, off: nat, rs: seq<Route>, j: nat, x: Route)
    requires RepTable(t, off, rs) && j < |t| && multiset(rs)[x] == 1
    ensures multiset(t[j].head)[x] <= 1
  {
    hide Touches, Keep, Sorted;
    RepAt(t, off, rs, j);
    var sub, e := Through(rs, off, j), off + Stride(off);
    SortedMembers(Near(sub, e));
    KeepCount(rs, (r: Route) => Touches(r, off, j), x);
    KeepCount(sub, (r: Route) => r.len <= e, x);
  }

  /** A route that goes on below is deleted from one entry only. */
  lemma DelTableBelow(t: seq<Node>, off: nat, q: Route)
    requires Level(off) && off < 32 * |q.prefix| && q.len > off + Stride(off) && |t| == Pow2(Stride(off))
    ensures DelTable(t, off, q) == t[Entry(q.prefix, off) := DelNode(t[Entry(q.prefix, off)], off + Stride(off), q)]
  {
    hide Entry, Pow2, DelNode;
    SpanOne(off, q.len);
  }

  lemma BelowSubset(off: nat, rs: seq<Route>, q: Route, i: nat, r: Route, m: Ledger)
    requires Reach(rs, off, |q.prefix|) && AllAgree(rs, q.prefix, off) && Distinct(rs) && Counted(rs, m)
    requires Fits(q, |q.prefix|) && q.len > off + Stride(off) && Touches(q, off, i)
    ensures var far := Far(Through(rs, off, i), off + Stride(off));
            && Distinct(far) && Counted(far, m)
            && (r in rs && SameRoute(r, q) ==> r in far)
  {
    hide Touches, Keep, SameRoute, AllAgree, Distinct;
    FoundBelow(off, rs, q, i, r);
    KeepDistinct(rs, (x: Route) => Touches(x, off, i));
    KeepDistinct(Through(rs, off, i), (x: Route) => x.len > off + Stride(off));
  }

  lemma ReadyToDelete(t: seq<Node>, rs: seq<Route>, q: Route, r: Route, words: nat)
    requires RepTable(t, 0, rs) && Reach(rs, 0, words) && Distinct(rs) && Fits(q, words)
    ensures AllAgree(rs, q.prefix, 0) && forall x | x in rs :: x in Held(t)
    ensures r in rs && SameRoute(r, q) ==> Held(t)[r] == Expansion(0, q.len)
    ensures !HasRoute(rs, q) ==> Minus(rs, q) == rs
  {
    hide RepTable, Held, Expansion, SameRoute, Keep;
    forall x | x in rs
      ensures x in Held(t)
    {
      HeldIs(t, rs, words, x);
      assert Expansion(0, x.len) > 0;
    }
    if r in rs && SameRoute(r, q) {
      HeldIs(t, rs, words, r);
      SameRouteLen(r, q);
    }
    if !HasRoute(rs, q) {
      KeepAll(rs, (x: Route) => !SameRoute(x, q));
    }
  }

  // ----- releasing everything

  /** Exactly the records that are referenced are allocated, and none was freed twice. */
  ghost predicate Balanced(m: Ledger) {
    !m.fault && forall x :: x in m.records <==> x in m.refs
  }

  lemma PutBalanced(m: Ledger, r: Route)
    requires Balanced(m) && r in m.refs
    ensures Balanced(Put(m, r)) && m.refs == Put(m, r).refs + multiset{r}
  {
    PutRefs(m, r);
    var k := Put(m, r);
    forall x
      ensures x in k.records <==> x in k.refs
    {
      assert x in m.records <==> x in m.refs;
    }
  }

  lemma PutRefs(m: Ledger, r: Route)
    requires r in m.refs
    ensures Put(m, r).refs == m.refs[r := m.refs[r] - 1] == m.refs - multiset{r}
    ensures m.refs == Put(m, r).refs + multiset{r}
  {
    var k := m.refs[r := m.refs[r] - 1];
    assert forall x :: k[x] == (m.refs - multiset{r})[x];
    assert k == m.refs - multiset{r};
  }

  lemma TakeAway(a: multiset<Route>, b: multiset<Route>, before: multiset<Route>, now: multiset<Route>)
    requires a + b <= before && before == now + b
    ensures a <= now
  {
    forall x: Route
      ensures a[x] <= now[x]
    {
      assert (a + b)[x] <= before[x] && before[x] == now[x] + b[x];
    }
  }

  /** One more route of a list dropped. */
  lemma ListStep(l: seq<Route>, k: nat, m: Ledger, before: multiset<Route>)
    requires k < |l| && multiset(l[k..]) <= m.refs && before == m.refs + multiset(l[..k])
    ensures l[k..][1..] == l[k + 1..] && l[k] in m.refs
    ensures multiset(l[k + 1..]) <= Put(m, l[k]).refs
    ensures before == Put(m, l[k]).refs + multiset(l[..k + 1])
  {
    assert l[k..] == [l[k]] + l[k + 1..];
    assert l[..k + 1] == l[..k] + [l[k]];
    PutRefs(m, l[k]);
    hide Put;
  }

  lemma HeldTableNone(t: seq<Node>)
    ensures HeldTable(t, 0) == multiset{}
  {
  }

  lemma HeldTableNext(t: seq<Node>, i: nat, now: multiset<Route>, before: multiset<Route>)
    requires i < |t| && before == now + HeldTable(t, i) && HeldTable(t, |t|) <= before
    ensures HeldTable(t, i + 1) == HeldTable(t, i) + HeldNode(t[i])
    ensures HeldNode(t[i]) <= now
  {
    HeldMonotone(t, i + 1, |t|);
    hide HeldNode;
    assert HeldTable(t, i + 1) == HeldTable(t, i) + HeldNode(t[i]);
    TakeAway(HeldNode(t[i]), HeldTable(t, i), before, now);
  }

  lemma {:induction false} HeldMonotone(t: seq<Node>, i: nat, k: nat)
    requires i <= k <= |t|
    ensures HeldTable(t, i) <= HeldTable(t, k)
    decreases k - i
  {
    if i < k {
      HeldMonotone(t, i, k - 1);
    }
  }

  /** A table with its first k entries emptied. */
  ghost function Emptied(t: seq<Node>, k: nat): (u: seq<Node>)
    ensures |u| == |t|
  {
    seq(|t|, j requires 0 <= j < |t| => if j < k then EMPTY else t[j])
  }

  lemma EmptiedNone(t: seq<Node>)
    ensures Emptied(t, 0) == t
  {
  }

  lemma EmptiedStep(t: seq<Node>, i: nat)
    requires i < |t|
    ensures Emptied(t, i)[i] == t[i] && Emptied(t, i + 1) == Emptied(t, i)[i := EMPTY]
  {
  }

  lemma ReadyToRelease(t: seq<Node>, rs: seq<Route>, m: Ledger, words: nat)
    requires RepTable(t, 0, rs) && Reach(rs, 0, words) && Distinct(rs)
    requires m.refs == Held(t) && m.records == (set r | r in rs) && !m.fault
    ensures Balanced(m) && Held(t) == HeldTable(t, |t|)
  {
    hide RepTable, HeldTable, Expansion, Distinct;
    forall x
      ensures x in m.records <==> x in m.refs
    {
      HeldIs(t, rs, words, x);
      if x in rs {
        assert Expansion(0, x.len) > 0;
      }
    }
  }

  lemma AllReleased(t: seq<Node>, rs: seq<Route>, m: Ledger, before: multiset<Route>, words: nat)
    requires words > 0 && RepTable(t, 0, rs) && Balanced(m) && before == Held(t) && before == m.refs + HeldTable(t, |t|)
    ensures m == Ledger(multiset{}, {}, false)
    ensures RepTable(Emptied(t, |t|), 0, []) && Reach([], 0, words) && Distinct([]) && Held(Emptied(t, |t|)) == multiset{}
  {
    var u := Emptied(t, |t|);
    EmptyRep(u, 0);
    assert m.refs == multiset{};
    assert m.records == {};
    forall x: Route
      ensures Held(u)[x] == 0
    {
      HeldAbsent(u, 0, [], x, |u|);
    }
  }
}
