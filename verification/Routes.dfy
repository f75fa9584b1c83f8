/** Route records, the order a node keeps them in, and the linear scan that a
    forwarding lookup must agree with. */
module Routes {
  import opened AddressBits
  import opened Common

  /** What kind of destination a route leads to. */
  datatype Kind = Forward | Link | Local

  /** A route record. `rec` is its address in memory: two records with equal
      contents are still two records. */
  datatype Route = Route(rec: nat, prefix: Address, len: nat, id: int,
                         nexthop: Address, port: int, kind: Kind)

  /** The record fits addresses of `words` 32-bit words. */
  ghost predicate Fits(r: Route, words: nat) {
    |r.prefix| == words && r.len <= 32 * words
  }

  ghost predicate AllFit(rs: seq<Route>, words: nat) {
    forall r | r in rs :: Fits(r, words)
  }

  /** The first n bits of two addresses are the same. */
  ghost predicate Agree(a: Address, b: Address, n: nat)
    requires n <= 32 * |a| && n <= 32 * |b|
  {
    forall k | 0 <= k < n :: Bit(a, k) == Bit(b, k)
  }

  ghost predicate Covers(r: Route, dst: Address)
    requires Fits(r, |dst|)
  {
    Agree(r.prefix, dst, r.len)
  }

  /** Same network, same length, same id: the two name the same route. */
  ghost predicate SameRoute(r: Route, q: Route) {
    && |r.prefix| == |q.prefix| && q.len <= 32 * |q.prefix|
    && r.len == q.len && r.id == q.id && Agree(r.prefix, q.prefix, q.len)
  }

  /** What the table's own test looks at: id and length, not the prefix. */
  predicate Identify(r: Route, id: int, len: nat) {
    r.id == id && r.len == len
  }

  // ----- sequences of routes, most recently added first

  ghost function Keep(rs: seq<Route>, p: Route -> bool): (ks: seq<Route>)
    ensures forall r :: r in ks <==> r in rs && p(r)
    ensures |ks| <= |rs|
  {
    if rs == [] then []
    else
      assert rs == [rs[0]] + rs[1..];
      (if p(rs[0]) then [rs[0]] else []) + Keep(rs[1..], p)
  }

  lemma {:induction false} KeepCommutes(rs: seq<Route>, p: Route -> bool, q: Route -> bool)
    ensures Keep(Keep(rs, p), q) == Keep(Keep(rs, q), p)
  {
    if rs != [] {
      KeepCommutes(rs[1..], p, q);
      var r := rs[0];
      var kp, kq := Keep(rs[1..], p), Keep(rs[1..], q);
      if p(r) { KeepCons(r, kp, q); }
      if q(r) { KeepCons(r, kq, p); }
      assert [] + kp == kp && [] + kq == kq;
    }
  }

  lemma {:induction false} KeepSame(rs: seq<Route>, p: Route -> bool, q: Route -> bool)
    requires forall r | r in rs :: p(r) == q(r)
    ensures Keep(rs, p) == Keep(rs, q)
  {
    if rs != [] {
      KeepSame(rs[1..], p, q);
    }
  }

  lemma {:induction false} KeepAll(rs: seq<Route>, p: Route -> bool)
    requires forall r | r in rs :: p(r)
    ensures Keep(rs, p) == rs
  {
    if rs != [] {
      KeepAll(rs[1..], p);
    }
  }

  lemma KeepCons(r: Route, rs: seq<Route>, p: Route -> bool)
    ensures Keep([r] + rs, p) == (if p(r) then [r] else []) + Keep(rs, p)
  {
    assert ([r] + rs)[1..] == rs;
  }

  // ----- the list in a node: longest prefix first, newest first among equals

  ghost predicate Descending(l: seq<Route>) {
    forall i, j | 0 <= i < j < |l| :: l[i].len >= l[j].len
  }

  /** Goes in front of the first route that is not longer. */
  ghost function Insert(l: seq<Route>, r: Route): seq<Route> {
    if l == [] then [r]
    else if l[0].len > r.len then [l[0]] + Insert(l[1..], r)
    else [r] + l
  }

  ghost function Sorted(rs: seq<Route>): seq<Route> {
    if rs == [] then [] else Insert(Sorted(rs[1..]), rs[0])
  }

  lemma {:induction false} InsertMembers(l: seq<Route>, r: Route)
    ensures |Insert(l, r)| == |l| + 1
    ensures multiset(Insert(l, r)) == multiset(l) + multiset{r}
    ensures forall x :: x in Insert(l, r) <==> x == r || x in l
  {
    if l != [] && l[0].len > r.len {
      InsertMembers(l[1..], r);
      assert l == [l[0]] + l[1..];
    }
  }

  /** The sorted list holds the same routes, each as often. */
  lemma {:induction false} SortedMembers(rs: seq<Route>)
    ensures |Sorted(rs)| == |rs|
    ensures multiset(Sorted(rs)) == multiset(rs)
    ensures forall x :: x in Sorted(rs) <==> x in rs
  {
    if rs != [] {
      SortedMembers(rs[1..]);
      InsertMembers(Sorted(rs[1..]), rs[0]);
      assert rs == [rs[0]] + rs[1..];
    }
  }

  lemma {:induction false} InsertDescending(l: seq<Route>, r: Route)
    requires Descending(l)
    ensures Descending(Insert(l, r))
  {
    if l != [] && l[0].len > r.len {
      InsertDescending(l[1..], r);
      InsertMembers(l[1..], r);
      var t := Insert(l[1..], r);
      assert forall x | x in t :: x.len <= l[0].len by {
        assert forall x | x in l[1..] :: x.len <= l[0].len;
      }
    }
  }

  lemma {:induction false} SortedDescending(rs: seq<Route>)
    ensures Descending(Sorted(rs))
  {
    if rs != [] {
      SortedDescending(rs[1..]);
      InsertDescending(Sorted(rs[1..]), rs[0]);
    }
  }

  /** Where the insertion lands, as a position. */
  lemma {:induction false} InsertAt(l: seq<Route>, r: Route, k: nat)
    requires k <= |l|
    requires forall i | 0 <= i < k :: l[i].len > r.len
    requires k < |l| ==> l[k].len <= r.len
    ensures Insert(l, r) == l[..k] + [r] + l[k..]
  {
    if k > 0 {
      InsertAt(l[1..], r, k - 1);
      assert l[..k] == [l[0]] + l[1..][..k - 1];
      assert l[1..][k - 1..] == l[k..];
    } else {
      assert l[..0] + [r] + l[0..] == [r] + l;
    }
  }

  lemma {:induction false} KeepInsert(l: seq<Route>, r: Route, p: Route -> bool)
    requires Descending(l)
    ensures Keep(Insert(l, r), p) == if p(r) then Insert(Keep(l, p), r) else Keep(l, p)
  {
    if l != [] && l[0].len > r.len {
      KeepInsert(l[1..], r, p);
      var t := Insert(l[1..], r);
      KeepCons(l[0], t, p);
      if p(l[0]) {
        assert ([l[0]] + Keep(l[1..], p))[1..] == Keep(l[1..], p);
      } else {
        assert Keep(l, p) == Keep(l[1..], p);
      }
    } else {
      KeepCons(r, l, p);
      var k := Keep(l, p);
      if k != [] {
        assert k[0] in k;
        assert k[0] in l;
        assert k[0].len <= r.len;
      }
      assert [] + k == k;
    }
  }

  /** Sorting and filtering commute. */
  lemma {:induction false} SortedKeep(rs: seq<Route>, p: Route -> bool)
    ensures Sorted(Keep(rs, p)) == Keep(Sorted(rs), p)
  {
    if rs != [] {
      SortedKeep(rs[1..], p);
      SortedDescending(rs[1..]);
      KeepInsert(Sorted(rs[1..]), rs[0], p);
      var k := Keep(rs[1..], p);
      if p(rs[0]) {
        assert ([rs[0]] + k)[1..] == k;
      } else {
        assert [] + k == k;
      }
    }
  }

  // ----- linear scan

  /** Scan of the whole route set, oldest to newest, keeping the best so far: a
      later route wins when it is at least as long. */
  ghost function Scan(rs: seq<Route>, dst: Address): (best: Option<Route>)
    requires AllFit(rs, |dst|)
  {
    if rs == [] then None
    else
      var b := Scan(rs[1..], dst);
      if Covers(rs[0], dst) && (b.None? || rs[0].len >= b.value.len) then Some(rs[0]) else b
  }

  lemma ScanCons(r: Route, rs: seq<Route>, dst: Address)
    requires Fits(r, |dst|) && AllFit(rs, |dst|)
    ensures AllFit([r] + rs, |dst|)
    ensures var b := Scan(rs, dst);
            Scan([r] + rs, dst) ==
            if Covers(r, dst) && (b.None? || r.len >= b.value.len) then Some(r) else b
  {
    assert ([r] + rs)[1..] == rs;
  }

  /** Route i covers the address, none that covers it is longer, and no newer one
      that covers it is as long. */
  ghost predicate BestAt(rs: seq<Route>, dst: Address, i: nat)
    requires AllFit(rs, |dst|)
  {
    && i < |rs|
    && Covers(rs[i], dst)
    && (forall j | 0 <= j < |rs| && Covers(rs[j], dst) :: rs[j].len <= rs[i].len)
    && (forall j | 0 <= j < i && Covers(rs[j], dst) :: rs[j].len < rs[i].len)
  }

  lemma BestAtTail(rs: seq<Route>, dst: Address, i: nat)
    requires AllFit(rs, |dst|) && rs != []
    requires BestAt(rs[1..], dst, i)
    ensures !Covers(rs[0], dst) || rs[0].len < rs[i + 1].len ==> BestAt(rs, dst, i + 1)
    ensures Covers(rs[0], dst) && rs[0].len >= rs[i + 1].len ==> BestAt(rs, dst, 0)
  {
    assert forall j | 1 <= j < |rs| :: rs[j] == rs[1..][j - 1];
  }

  lemma {:induction false} ScanNone(rs: seq<Route>, dst: Address)
    requires AllFit(rs, |dst|)
    ensures Scan(rs, dst).None? <==> forall r | r in rs :: !Covers(r, dst)
  {
    if rs != [] {
      ScanNone(rs[1..], dst);
      assert rs == [rs[0]] + rs[1..];
    }
  }

  lemma {:induction false} ScanWinner(rs: seq<Route>, dst: Address) returns (i: nat)
    requires AllFit(rs, |dst|) && Scan(rs, dst).Some?
    ensures BestAt(rs, dst, i) && Scan(rs, dst) == Some(rs[i])
  {
    if Scan(rs[1..], dst).Some? {
      i := ScanWinner(rs[1..], dst);
      BestAtTail(rs, dst, i);
      i := if Covers(rs[0], dst) && rs[0].len >= rs[i + 1].len then 0 else i + 1;
    } else {
      i := 0;
      ScanNone(rs[1..], dst);
      assert forall j | 1 <= j < |rs| :: rs[j] in rs[1..];
    }
  }

  /** What the scan returns: nothing exactly when no route covers the address;
      otherwise a covering route of greatest length, and the newest of those. */
  lemma ScanIsBest(rs: seq<Route>, dst: Address)
    requires AllFit(rs, |dst|)
    ensures Scan(rs, dst).None? <==> forall r | r in rs :: !Covers(r, dst)
    ensures Scan(rs, dst).Some? ==> exists i: nat :: BestAt(rs, dst, i) && Scan(rs, dst).value == rs[i]
  {
    ScanNone(rs, dst);
    if Scan(rs, dst).Some? {
      var i := ScanWinner(rs, dst);
    }
  }

  /** Routes that do not cover the address play no part. */
  lemma {:induction false} ScanKeep(rs: seq<Route>, dst: Address, p: Route -> bool)
    requires AllFit(rs, |dst|)
    requires forall r | r in rs && Covers(r, dst) :: p(r)
    ensures Scan(Keep(rs, p), dst) == Scan(rs, dst)
  {
    if rs != [] {
      ScanKeep(rs[1..], dst, p);
      var k := Keep(rs[1..], p);
      assert ([rs[0]] + k)[1..] == k;
      assert [] + k == k;
    }
  }

  ghost function First(l: seq<Route>): Option<Route> {
    if l == [] then None else Some(l[0])
  }

  /** If every route covers the address, the scan finds the head of the sorted list. */
  lemma {:induction false} ScanSorted(rs: seq<Route>, dst: Address)
    requires AllFit(rs, |dst|)
    requires forall r | r in rs :: Covers(r, dst)
    ensures Scan(rs, dst) == First(Sorted(rs))
  {
    if rs != [] {
      ScanSorted(rs[1..], dst);
    }
  }

  /** A scan over two groups where the second is strictly longer than the first:
      the second group decides whenever it has an answer. */
  lemma {:induction false} ScanSplit(rs: seq<Route>, dst: Address, n: nat, far: Route -> bool, near: Route -> bool)
    requires AllFit(rs, |dst|)
    requires forall r :: far(r) <==> r.len > n
    requires forall r :: near(r) <==> r.len <= n
    ensures var best := Scan(Keep(rs, far), dst);
            Scan(rs, dst) == if best.Some? then best else Scan(Keep(rs, near), dst)
  {
    if rs != [] {
      var r, t := rs[0], rs[1..];
      ScanSplit(t, dst, n, far, near);
      assert rs == [r] + t;
      KeepCons(r, t, far);
      KeepCons(r, t, near);
      ScanIn(Keep(t, far), dst);
      ScanIn(Keep(t, near), dst);
      ScanCons(r, t, dst);
      if far(r) {
        ScanCons(r, Keep(t, far), dst);
        assert Keep(rs, near) == Keep(t, near);
      } else {
        ScanCons(r, Keep(t, near), dst);
        assert Keep(rs, far) == Keep(t, far);
      }
    }
  }

  lemma {:induction false} ScanIn(rs: seq<Route>, dst: Address)
    requires AllFit(rs, |dst|)
    ensures Scan(rs, dst).Some? ==> Scan(rs, dst).value in rs
  {
    if rs != [] {
      ScanIn(rs[1..], dst);
    }
  }
}
