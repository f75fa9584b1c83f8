/** The multibit trie: a table of 2^16 entries on the first 16 bits, then tables
    of 2^8 entries on each following byte. A route sits in every entry its prefix
    expands to; `Rep` ties a trie to the route set it stands for. */
module Trie {
  import opened AddressBits
  import opened Arithmetic
  import opened Common
  import opened Routes

  /** A table entry: the routes that end here, longest first, and the table for
      the next byte (empty when there is none). */
  datatype Node = Node(head: seq<Route>, next: seq<Node>)

  const EMPTY := Node([], [])

  /** Bit offsets at which a table can start. */
  predicate Level(off: nat) {
    off == 0 || (off >= 16 && off % 8 == 0)
  }

  function Stride(off: nat): nat {
    if off == 0 then 16 else 8
  }

  /** The entry of the table at `off` that an address runs through. */
  function Entry(a: Address, off: nat): (i: nat)
    requires Level(off) && off < 32 * |a|
    ensures i < Pow2(Stride(off))
  {
    assert off % 32 + Stride(off) <= 32;
    Index(a, off, Stride(off))
  }

  /** How many entries of the table at `off` a prefix of length `len` takes up. */
  function Span(off: nat, len: nat): (s: nat)
    ensures s > 0
  {
    Pow2(if len >= off + Stride(off) then 0 else if len <= off then Stride(off) else off + Stride(off) - len)
  }

  /** Route r is stored in entry i of the table at `off`, or in the table below it. */
  ghost predicate Touches(r: Route, off: nat, i: nat) {
    && Level(off) && off < 32 * |r.prefix|
    && i / Span(off, r.len) == Entry(r.prefix, off) / Span(off, r.len)
  }

  ghost function Through(rs: seq<Route>, off: nat, i: nat): seq<Route> {
    Keep(rs, (r: Route) => Touches(r, off, i))
  }

  ghost function Near(rs: seq<Route>, off: nat): seq<Route> {
    Keep(rs, (r: Route) => r.len <= off)
  }

  ghost function Far(rs: seq<Route>, off: nat): seq<Route> {
    Keep(rs, (r: Route) => r.len > off)
  }

  // ----- a trie stands for a route set

  ghost predicate RepTable(t: seq<Node>, off: nat, rs: seq<Route>)
    decreases t
  {
    && |t| == Pow2(Stride(off))
    && forall i | 0 <= i < |t| :: RepNode(t[i], off + Stride(off), Through(rs, off, i))
  }

  ghost predicate RepNode(n: Node, off: nat, rs: seq<Route>)
    decreases n
  {
    && n.head == Sorted(Near(rs, off))
    && if Far(rs, off) == [] then n.next == [] else RepTable(n.next, off, Far(rs, off))
  }

  /** The routes a table at `off` can hold: long enough to get there. */
  ghost predicate Reach(rs: seq<Route>, off: nat, words: nat) {
    Level(off) && words > 0 && forall r | r in rs :: Fits(r, words) && (off == 0 || r.len > off)
  }

  // ----- a prefix and an address, one stride at a time

  /** An address runs through an entry the route touches exactly when the two
      agree on the bits of this stride that the prefix fixes. */
  lemma TouchesBits(r: Route, dst: Address, off: nat)
    requires Fits(r, |dst|) && Level(off) && off < 32 * |dst| && (off == 0 || r.len > off)
    ensures Touches(r, off, Entry(dst, off)) <==>
            forall k | off <= k < off + Stride(off) && k < r.len :: Bit(r.prefix, k) == Bit(dst, k)
  {
    hide Pow2, Bit, Index;
    var s := Stride(off);
    var l := if r.len >= off + s then s else r.len - off;
    LeadingBits(r.prefix, dst, off, s, l);
    assert Pow2(s - l) == Span(off, r.len);
  }

  lemma AgreeStep(a: Address, b: Address, m: nat, n: nat)
    requires m <= n <= 32 * |a| && n <= 32 * |b| && Agree(a, b, m)
    ensures Agree(a, b, n) <==> forall k | m <= k < n :: Bit(a, k) == Bit(b, k)
  {
  }

  /** Agreement up to the end of the stride, or of the prefix if that comes first. */
  lemma TouchesAgree(r: Route, dst: Address, off: nat)
    requires Fits(r, |dst|) && Level(off) && off < 32 * |dst| && (off == 0 || r.len > off)
    requires Agree(r.prefix, dst, off)
    ensures var e := off + Stride(off);
            Touches(r, off, Entry(dst, off)) <==>
            Agree(r.prefix, dst, if r.len <= e then r.len else e)
  {
    var e := off + Stride(off);
    TouchesBits(r, dst, off);
    AgreeStep(r.prefix, dst, off, if r.len <= e then r.len else e);
  }

  lemma TouchesSelf(r: Route, off: nat)
    requires Level(off) && off < 32 * |r.prefix|
    ensures Touches(r, off, Entry(r.prefix, off))
  {
  }

  // ----- lookup

  ghost predicate Shape(t: seq<Node>, off: nat, words: nat)
    decreases t
  {
    && |t| == Pow2(Stride(off)) && off < 32 * words
    && forall i | 0 <= i < |t| :: t[i].next == [] || Shape(t[i].next, off + Stride(off), words)
  }

  lemma {:induction false} RepShape(t: seq<Node>, off: nat, rs: seq<Route>, words: nat)
    requires RepTable(t, off, rs) && Reach(rs, off, words) && off < 32 * words
    ensures Shape(t, off, words)
    decreases t
  {
    hide Touches, Keep, Sorted, Reach;
    forall i | 0 <= i < |t|
      ensures t[i].next == [] || Shape(t[i].next, off + Stride(off), words)
    {
      var e, sub := off + Stride(off), Through(rs, off, i);
      FarReach(rs, off, i, words);
      if Far(sub, e) != [] {
        RepShape(t[i].next, e, Far(sub, e), words);
      }
    }
  }

  /** The deepest table entry on the address's path that holds any route decides. */
  ghost function LookupTable(t: seq<Node>, off: nat, dst: Address): Option<Route>
    requires Level(off) && Shape(t, off, |dst|)
    decreases t
  {
    var e := off + Stride(off);
    assert Level(e);
    var n := t[Entry(dst, off)];
    var below := if n.next == [] then None else LookupTable(n.next, e, dst);
    if below.Some? then below else First(n.head)
  }

  /** Following the address into its entry keeps every route that covers it. */
  lemma ThroughScan(rs: seq<Route>, off: nat, dst: Address)
    requires Reach(rs, off, |dst|) && off < 32 * |dst|
    requires forall r | r in rs :: Agree(r.prefix, dst, off)
    ensures var e := off + Stride(off);
            var sub := Through(rs, off, Entry(dst, off));
            && AllFit(sub, |dst|) && Scan(sub, dst) == Scan(rs, dst)
            && forall r | r in sub :: Agree(r.prefix, dst, if r.len <= e then r.len else e)
  {
    hide Touches;
    var e, i := off + Stride(off), Entry(dst, off);
    forall r | r in rs
      ensures Touches(r, off, i) <==> Agree(r.prefix, dst, if r.len <= e then r.len else e)
    {
      TouchesAgree(r, dst, off);
    }
    ScanKeep(rs, dst, (r: Route) => Touches(r, off, i));
  }

  /** Below the entry, the longer routes decide if any of them covers the address. */
  lemma NodeScan(n: Node, off: nat, rs: seq<Route>, dst: Address)
    requires RepNode(n, off, rs) && AllFit(rs, |dst|)
    requires forall r | r in rs && r.len <= off :: Covers(r, dst)
    ensures AllFit(Far(rs, off), |dst|)
    ensures var best := Scan(Far(rs, off), dst);
            Scan(rs, dst) == if best.Some? then best else First(n.head)
  {
    hide Touches;
    ScanSplit(rs, dst, off, (r: Route) => r.len > off, (r: Route) => r.len <= off);
    ScanSorted(Near(rs, off), dst);
  }

  /** The routes that go on below the entry are ready for the next table. */
  lemma FarReach(rs: seq<Route>, off: nat, i: nat, words: nat)
    requires Reach(rs, off, words)
    ensures var e := off + Stride(off);
            var far := Far(Through(rs, off, i), e);
            Reach(far, e, words) && (far != [] ==> e < 32 * words)
  {
    hide Touches;
    var far := Far(Through(rs, off, i), off + Stride(off));
    if far != [] {
      assert far[0] in far;
    }
  }

  lemma RepAt(t: seq<Node>, off: nat, rs: seq<Route>, i: nat)
    requires RepTable(t, off, rs) && i < |t|
    ensures RepNode(t[i], off + Stride(off), Through(rs, off, i))
  {
  }

  ghost predicate AllAgree(rs: seq<Route>, dst: Address, n: nat) {
    n <= 32 * |dst| && forall r | r in rs :: n <= 32 * |r.prefix| && Agree(r.prefix, dst, n)
  }

  /** One table of the descent: what is left to search, and what decides if nothing
      is found there. */
  lemma LookupEntry(n: Node, off: nat, dst: Address, rs: seq<Route>)
    requires Reach(rs, off, |dst|) && off < 32 * |dst| && AllAgree(rs, dst, off)
    requires RepNode(n, off + Stride(off), Through(rs, off, Entry(dst, off)))
    ensures var e := off + Stride(off);
            var far := Far(Through(rs, off, Entry(dst, off)), e);
            var best := Scan(far, dst);
            && Reach(far, e, |dst|) && (far != [] ==> e < 32 * |dst| && AllAgree(far, dst, e))
            && Scan(rs, dst) == if best.Some? then best else First(n.head)
  {
    hide Touches, Keep, Sorted, Scan, Entry, RepTable, RepNode, Bit;
    var i := Entry(dst, off);
    ThroughScan(rs, off, dst);
    FarReach(rs, off, i, |dst|);
    NodeScan(n, off + Stride(off), Through(rs, off, i), dst);
  }

  /** Trie lookup is the linear scan over the routes the trie stands for. */
  lemma {:induction false} LookupIsScan(t: seq<Node>, off: nat, dst: Address, rs: seq<Route>)
    requires RepTable(t, off, rs) && Reach(rs, off, |dst|) && off < 32 * |dst| && Shape(t, off, |dst|)
    requires AllAgree(rs, dst, off)
    ensures LookupTable(t, off, dst) == Scan(rs, dst)
    decreases t
  {
    hide Touches, Keep, Sorted, AllAgree;
    var e, i := off + Stride(off), Entry(dst, off);
    RepAt(t, off, rs, i);
    LookupEntry(t[i], off, dst, rs);
    var far := Far(Through(rs, off, i), e);
    if far != [] {
      LookupIsScan(t[i].next, e, dst, far);
    }
  }

  // ----- the representation is unique

  lemma {:induction false} RepUnique(t: seq<Node>, u: seq<Node>, off: nat, rs: seq<Route>)
    requires RepTable(t, off, rs) && RepTable(u, off, rs)
    ensures t == u
    decreases t
  {
    hide Touches;
    forall i | 0 <= i < |t|
      ensures t[i] == u[i]
    {
      var far := Far(Through(rs, off, i), off + Stride(off));
      if far != [] {
        RepUnique(t[i].next, u[i].next, off + Stride(off), far);
      }
    }
  }

  ghost predicate AllEmpty(t: seq<Node>) {
    forall i | 0 <= i < |t| :: t[i] == EMPTY
  }

  function EmptyTable(size: nat): (t: seq<Node>)
    ensures |t| == size && forall i | 0 <= i < size :: t[i] == EMPTY
  {
    seq(size, _ => EMPTY)
  }

  lemma EmptyRep(t: seq<Node>, off: nat)
    requires |t| == Pow2(Stride(off)) && AllEmpty(t)
    ensures RepTable(t, off, [])
  {
    hide Touches;
    forall i | 0 <= i < |t|
      ensures RepNode(t[i], off + Stride(off), Through([], off, i))
    {
      assert Through([], off, i) == [];
    }
  }

  /** A table stands for no route at all exactly when every entry is empty: pruning
      empty tables never loses a route, and none that should go is kept. */
  lemma RepEmpty(t: seq<Node>, off: nat, rs: seq<Route>, words: nat)
    requires RepTable(t, off, rs) && Reach(rs, off, words) && off < 32 * words
    ensures AllEmpty(t) <==> rs == []
  {
    hide Touches;
    if rs == [] {
      EmptyRep(EmptyTable(|t|), off);
      RepUnique(t, EmptyTable(|t|), off, rs);
    } else {
      var r, e := rs[0], off + Stride(off);
      assert r in rs;
      var i := Entry(r.prefix, off);
      TouchesSelf(r, off);
      RepAt(t, off, rs, i);
      var sub := Through(rs, off, i);
      assert r in sub;
      if r.len <= e {
        assert r in Near(sub, e);
        SortedMembers(Near(sub, e));
      } else {
        assert r in Far(sub, e);
      }
    }
  }

  // ----- adding a route

  /** How many entries a prefix expands to, in the table at `off` or below it. */
  function Expansion(off: nat, len: nat): (n: nat)
    requires off <= len
    ensures n > 0
    decreases len - off
  {
    if len <= off + Stride(off) then Span(off, len) else Expansion(off + Stride(off), len)
  }

  /** The route goes into the first m of the entries it expands to (all of them
      when nothing fails); the tables on the way are created where missing. */
  ghost function AddTable(t: seq<Node>, off: nat, r: Route, m: nat): (u: seq<Node>)
    requires off <= r.len
    ensures |u| == |t|
    decreases r.len + 16 - off, 0
  {
    seq(|t|, i requires 0 <= i < |t| =>
      if Touches(r, off, i) && i % Span(off, r.len) < m then AddNode(t[i], off + Stride(off), r, m) else t[i])
  }

  ghost function AddNode(n: Node, off: nat, r: Route, m: nat): Node
    requires off <= r.len + 16
    decreases r.len + 16 - off, 1
  {
    if r.len <= off then n.(head := Insert(n.head, r))
    else n.(next := AddTable(if n.next == [] then EmptyTable(Pow2(Stride(off))) else n.next, off, r, m))
  }

  /** Nothing placed, nothing changed. */
  lemma AddNone(t: seq<Node>, off: nat, r: Route)
    requires off <= r.len
    ensures AddTable(t, off, r, 0) == t
  {
  }

  /** A route placed in full is a route added to the set the trie stands for. */
  lemma {:induction false} AddTableRep(t: seq<Node>, off: nat, rs: seq<Route>, r: Route, m: nat)
    requires Level(off) && RepTable(t, off, rs) && off <= r.len && m >= Expansion(off, r.len)
    ensures RepTable(AddTable(t, off, r, m), off, [r] + rs)
    decreases r.len + 16 - off, 0
  {
    hide Touches, Keep, Sorted, AddNode, RepNode;
    var u, e := AddTable(t, off, r, m), off + Stride(off);
    forall i | 0 <= i < |u|
      ensures RepNode(u[i], e, Through([r] + rs, off, i))
    {
      RepAt(t, off, rs, i);
      KeepCons(r, rs, (x: Route) => Touches(x, off, i));
      if Touches(r, off, i) {
        assert i % Span(off, r.len) < m;
        AddNodeRep(t[i], e, Through(rs, off, i), r, m);
      } else {
        assert [] + Through(rs, off, i) == Through(rs, off, i);
      }
    }
  }

  lemma {:induction false} AddNodeRep(n: Node, off: nat, rs: seq<Route>, r: Route, m: nat)
    requires Level(off) && off > 0 && RepNode(n, off, rs) && off <= r.len + 16
    requires r.len > off ==> m >= Expansion(off, r.len)
    ensures RepNode(AddNode(n, off, r, m), off, [r] + rs)
    decreases r.len + 16 - off, 1
  {
    hide Touches, Keep, RepTable, Expansion;
    KeepCons(r, rs, (x: Route) => x.len <= off);
    KeepCons(r, rs, (x: Route) => x.len > off);
    if r.len <= off {
      assert ([r] + Near(rs, off))[1..] == Near(rs, off);
      assert Far([r] + rs, off) == Far(rs, off);
    } else {
      assert Near([r] + rs, off) == Near(rs, off);
      if n.next == [] {
        EmptyRep(EmptyTable(Pow2(Stride(off))), off);
      }
      var t := if n.next == [] then EmptyTable(Pow2(Stride(off))) else n.next;
      assert RepTable(t, off, Far(rs, off)) by { RepNextNonEmpty(n, off, rs); }
      AddTableRep(t, off, Far(rs, off), r, m);
    }
  }

  lemma RepNextNonEmpty(n: Node, off: nat, rs: seq<Route>)
    requires RepNode(n, off, rs)
    ensures n.next == [] <==> Far(rs, off) == []
  {
    hide Touches, Keep, Sorted;
  }

  // ----- deleting a route

  ghost function Minus(rs: seq<Route>, q: Route): seq<Route> {
    Keep(rs, (r: Route) => !SameRoute(r, q))
  }

  ghost function Drop(l: seq<Route>, id: int, len: nat): seq<Route> {
    Keep(l, (r: Route) => !Identify(r, id, len))
  }

  ghost function Prune(t: seq<Node>): seq<Node> {
    if AllEmpty(t) then [] else t
  }

  /** The route leaves every entry it touches; a table left empty is released. */
  ghost function DelTable(t: seq<Node>, off: nat, q: Route): (u: seq<Node>)
    requires off <= q.len
    ensures |u| == |t|
    decreases q.len + 16 - off, 0
  {
    seq(|t|, i requires 0 <= i < |t| =>
      if Touches(q, off, i) then DelNode(t[i], off + Stride(off), q) else t[i])
  }

  ghost function DelNode(n: Node, off: nat, q: Route): Node
    requires off <= q.len + 16
    decreases q.len + 16 - off, 1
  {
    if q.len <= off then n.(head := Drop(n.head, q.id, q.len))
    else n.(next := Prune(DelTable(n.next, off, q)))
  }

  /** Routes of equal length in one entry are on the same network, so the id and
      the length identify the route there. */
  lemma SameInEntry(r: Route, q: Route, off: nat, i: nat)
    requires Level(off) && |q.prefix| > 0 && Fits(r, |q.prefix|) && Fits(q, |q.prefix|)
    requires off == 0 || (q.len > off && r.len > off)
    requires Agree(r.prefix, q.prefix, off) && Touches(q, off, i)
    ensures q.len <= off + Stride(off) ==>
              (Touches(r, off, i) && Identify(r, q.id, q.len) <==> SameRoute(r, q))
    ensures SameRoute(r, q) ==> Touches(r, off, i)
  {
    hide Bit, Entry, Pow2;
    if r.len == q.len {
      var j := Entry(q.prefix, off);
      assert Touches(r, off, j) <==> Touches(r, off, i);
      TouchesAgree(r, q.prefix, off);
    }
  }

  lemma NotTouched(r: Route, q: Route, off: nat, i: nat)
    requires Level(off) && |q.prefix| > 0 && Fits(r, |q.prefix|) && Fits(q, |q.prefix|)
    requires off == 0 || (q.len > off && r.len > off)
    requires SameRoute(r, q)
    ensures Touches(r, off, i) <==> Touches(q, off, i)
  {
    hide Bit, Entry, Pow2;
    assert Agree(r.prefix, q.prefix, off);
    TouchesSelf(q, off);
    SameInEntry(r, q, off, Entry(q.prefix, off));
  }

  /** Two routes that both go on below an entry agree on every bit up to it. */
  lemma AgreeBelow(r: Route, q: Route, off: nat, i: nat)
    requires Level(off) && |q.prefix| > 0 && Fits(r, |q.prefix|) && Fits(q, |q.prefix|)
    requires var e := off + Stride(off); r.len > e && q.len > e
    requires Agree(r.prefix, q.prefix, off) && Touches(r, off, i) && Touches(q, off, i)
    ensures Agree(r.prefix, q.prefix, off + Stride(off))
  {
    hide Bit, Entry;
    assert Span(off, q.len) == 1 && i == Entry(q.prefix, off);
    TouchesAgree(r, q.prefix, off);
  }

  lemma DelHereRep(n: Node, off: nat, rs: seq<Route>, q: Route)
    requires RepNode(n, off, rs) && q.len <= off
    requires forall r | r in rs :: Identify(r, q.id, q.len) <==> SameRoute(r, q)
    ensures RepNode(n.(head := Drop(n.head, q.id, q.len)), off, Minus(rs, q))
  {
    hide Keep, RepTable, Agree;
    var near, far := (r: Route) => r.len <= off, (r: Route) => r.len > off;
    var other := (r: Route) => !SameRoute(r, q);
    KeepCommutes(rs, other, near);
    KeepCommutes(rs, other, far);
    KeepAll(Far(rs, off), other);
    KeepSame(Near(rs, off), other, (r: Route) => !Identify(r, q.id, q.len));
    SortedKeep(Near(rs, off), (r: Route) => !Identify(r, q.id, q.len));
  }

  lemma {:induction false} DelTableRep(t: seq<Node>, off: nat, rs: seq<Route>, q: Route)
    requires RepTable(t, off, rs) && Reach(rs, off, |q.prefix|) && AllAgree(rs, q.prefix, off)
    requires Fits(q, |q.prefix|) && (off == 0 || q.len > off)
    ensures RepTable(DelTable(t, off, q), off, Minus(rs, q))
    decreases q.len + 16 - off, 1
  {
    hide Touches, Keep, Sorted, DelNode, RepNode, SameRoute, Agree;
    var u, e := DelTable(t, off, q), off + Stride(off);
    forall i | 0 <= i < |u|
      ensures RepNode(u[i], e, Through(Minus(rs, q), off, i))
    {
      var sub := Through(rs, off, i);
      RepAt(t, off, rs, i);
      KeepCommutes(rs, (r: Route) => !SameRoute(r, q), (r: Route) => Touches(r, off, i));
      if Touches(q, off, i) {
        DelNodeRep(t[i], off, i, rs, q);
      } else {
        forall r | r in sub
          ensures !SameRoute(r, q)
        {
          if SameRoute(r, q) { NotTouched(r, q, off, i); }
        }
        KeepAll(sub, (r: Route) => !SameRoute(r, q));
      }
    }
  }

  lemma {:induction false} DelNodeRep(n: Node, off: nat, i: nat, rs: seq<Route>, q: Route)
    requires RepNode(n, off + Stride(off), Through(rs, off, i))
    requires Reach(rs, off, |q.prefix|) && AllAgree(rs, q.prefix, off)
    requires Fits(q, |q.prefix|) && (off == 0 || q.len > off) && Touches(q, off, i)
    ensures RepNode(DelNode(n, off + Stride(off), q), off + Stride(off), Minus(Through(rs, off, i), q))
    decreases q.len + 16 - off, 0
  {
    hide Touches, Keep, Sorted, SameRoute, Agree, RepTable;
    var e, sub := off + Stride(off), Through(rs, off, i);
    if q.len <= e {
      forall r | r in sub
        ensures Identify(r, q.id, q.len) <==> SameRoute(r, q)
      {
        SameInEntry(r, q, off, i);
      }
      DelHereRep(n, e, sub, q);
    } else {
      DelBelowRep(n, off, i, rs, q);
    }
  }

  lemma {:induction false} DelBelowRep(n: Node, off: nat, i: nat, rs: seq<Route>, q: Route)
    requires RepNode(n, off + Stride(off), Through(rs, off, i))
    requires Reach(rs, off, |q.prefix|) && AllAgree(rs, q.prefix, off)
    requires Fits(q, |q.prefix|) && q.len > off + Stride(off) && Touches(q, off, i)
    ensures var e := off + Stride(off);
            RepNode(n.(next := Prune(DelTable(n.next, e, q))), e, Minus(Through(rs, off, i), q))
    decreases q.len + 16 - off - Stride(off), 2
  {
    hide Touches, Keep, Sorted, Agree, RepTable;
    var e, sub := off + Stride(off), Through(rs, off, i);
    var other := (r: Route) => !SameRoute(r, q);
    var far := Far(sub, e);
    KeepCommutes(sub, other, (r: Route) => r.len <= e);
    KeepCommutes(sub, other, (r: Route) => r.len > e);
    KeepAll(Near(sub, e), other);
    FarReach(rs, off, i, |q.prefix|);
    RepNextNonEmpty(n, e, sub);
    if far != [] {
      forall r | r in far
        ensures Agree(r.prefix, q.prefix, e)
      {
        AgreeBelow(r, q, off, i);
      }
      DelTableRep(n.next, e, far, q);
      RepEmpty(DelTable(n.next, e, q), e, Minus(far, q), |q.prefix|);
    }
  }
}
