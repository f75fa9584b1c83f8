/** Forwarding an IPv4 packet: the TTL goes down by one and the header checksum is updated
    in place, on a host of either byte order. */
module IpChecksum {

  import opened Common

  const MIN_HEADER: nat := 20
  const TTL: nat := 8
  const CHECK: nat := 10

  /** A header of any length the format allows: whole 16-bit words, at least ten. */
  predicate Header(h: seq<Byte>) {
    |h| >= MIN_HEADER && |h| % 2 == 0
  }

  // ----- one's complement sums

  /** A 16-bit word in network order. */
  function Net(a: Byte, b: Byte): (w: nat)
    ensures w < 0x10000
  {
    256 * a as int + b
  }

  /** The plain sum of the words of a header. */
  ghost function Sum(h: seq<Byte>): nat {
    if |h| < 2 then 0 else Net(h[0], h[1]) + Sum(h[2..])
  }

  /** Bring a sum down to 16 bits, carries going round. */
  function Fold(x: nat): (r: nat)
    ensures r < 0x10000
  {
    if x < 0x10000 then x else Fold(x / 0x10000 + x % 0x10000)
  }

  /** The checksum of a header is right: with it, all words sum up to all ones. */
  ghost predicate Right(h: seq<Byte>) {
    Fold(Sum(h)) == 0xFFFF
  }

  lemma {:induction false} FoldMod(x: nat)
    ensures Fold(x) % 0xFFFF == x % 0xFFFF && (Fold(x) == 0 <==> x == 0)
  {
    if x >= 0x10000 {
      var q: int, r: int := x / 0x10000, x % 0x10000;
      FoldMod(q + r);
      ModShift(q + r, q);
      assert x == q + r + 0xFFFF * q;
    }
  }

  lemma ModShift(x: int, q: int)
    ensures (x + 0xFFFF * q) % 0xFFFF == x % 0xFFFF
  {
  }

  /** Two numbers below 0xFFFF that differ by a multiple of it are equal. */
  lemma SameResidue(x: int, y: int, q: int)
    requires 0 <= x < 0xFFFF && 0 <= y < 0xFFFF && x == y + 0xFFFF * q
    ensures x == y
  {
  }

  lemma RightIff(h: seq<Byte>)
    ensures Right(h) <==> Sum(h) > 0 && Sum(h) % 0xFFFF == 0
  {
    FoldMod(Sum(h));
  }

  lemma {:induction false} SumAppend(a: seq<Byte>, b: seq<Byte>)
    requires |a| % 2 == 0
    ensures Sum(a + b) == Sum(a) + Sum(b)
  {
    if a == [] {
      assert a + b == b;
    } else {
      SumAppend(a[2..], b);
      assert (a + b)[2..] == a[2..] + b;
    }
  }

  /** The sum, with the words of TTL and checksum apart. */
  ghost function Rest(h: seq<Byte>): nat
    requires Header(h)
  {
    Sum(h[..TTL]) + Sum(h[CHECK + 2..])
  }

  lemma SumParts(h: seq<Byte>)
    requires Header(h)
    ensures Sum(h) == Rest(h) + Net(h[TTL], h[TTL + 1]) + Net(h[CHECK], h[CHECK + 1])
  {
    var mid := h[TTL..CHECK + 2];
    assert h == h[..TTL] + (mid + h[CHECK + 2..]);
    SumAppend(h[..TTL], mid + h[CHECK + 2..]);
    SumAppend(mid, h[CHECK + 2..]);
    assert mid == [h[8], h[9], h[10], h[11]] && mid[2..] == [h[10], h[11]] && mid[2..][2..] == [];
  }

  // ----- the update

  /** The checksum field as the host loads it. */
  function Load(little: bool, a: Byte, b: Byte): nat {
    if little then Net(b, a) else Net(a, b)
  }

  function Store(little: bool, w: nat): (Byte, Byte)
    requires w < 0x10000
  {
    if little then (w % 256, w / 256) else (w / 256, w % 256)
  }

  /** 0x0100 in network order, as the host adds it. */
  function Step(little: bool): nat {
    if little then 1 else 256
  }

  /** One more, carry going round, cut to 16 bits. */
  function Bump(little: bool, check: nat): (r: nat)
    requires check < 0x10000
    ensures r < 0x10000
  {
    var c := check + Step(little);
    (c + (if c >= 0xFFFF then 1 else 0)) % 0x10000
  }

  /** One less, in eight bits. */
  function Down(ttl: Byte): Byte {
    (ttl as int + 255) % 256
  }

  function Forwarded(little: bool, h: seq<Byte>): (r: seq<Byte>)
    requires Header(h)
    ensures Header(r) && |r| == |h|
  {
    var (a, b) := Store(little, Bump(little, Load(little, h[CHECK], h[CHECK + 1])));
    h[TTL := Down(h[TTL])][CHECK := a][CHECK + 1 := b]
  }

  /** Rewrite a header for forwarding, unless its TTL is 1: that packet stays local. */
  method Forward(little: bool, h: array<Byte>) returns (sent: bool)
    requires Header(h[..])
    modifies h
    ensures sent <==> old(h[TTL]) != 1
    ensures h[..] == if sent then Forwarded(little, old(h[..])) else old(h[..])
    ensures sent ==> h[8] == (old(h[8]) as int + 255) % 256
    ensures forall i | 0 <= i < h.Length && i != 8 && i != 10 && i != 11 :: h[i] == old(h[i])
  {
    hide Net;
    if h[TTL] == 1 {
      return false;
    }
    var check := Load(little, h[CHECK], h[CHECK + 1]);
    h[TTL] := Down(h[TTL]);
    check := check + Step(little);
    var (a, b) := Store(little, (check + (if check >= 0xFFFF then 1 else 0)) % 0x10000);
    h[CHECK], h[CHECK + 1] := a, b;
    sent := true;
  }

  /** Stored and loaded again, and the other way round: 256 times as much, modulo
      65535. */
  lemma Swapped(a: Byte, b: Byte)
    ensures 256 * Net(b, a) - Net(a, b) == 0xFFFF * b
  {
  }

  lemma StoreLoad(little: bool, w: nat)
    requires w < 0x10000
    ensures var (a, b) := Store(little, w); Load(little, a, b) == w
  {
  }

  lemma BumpIs(little: bool, w: nat)
    requires w < 0x10000
    ensures var c := w + Step(little); Bump(little, w) == if c >= 0xFFFF then c - 0xFFFF else c
  {
  }

  /** The new checksum, in network order: 256 more modulo 65535, and never all ones. */
  lemma BumpNet(little: bool, a: Byte, b: Byte) returns (q: int)
    ensures var (c, d) := Store(little, Bump(little, Load(little, a, b)));
            Net(c, d) != 0xFFFF && Net(c, d) == Net(a, b) + 256 + 0xFFFF * q
  {
    hide Bump, Store;
    var w := Load(little, a, b);
    var (c, d) := Store(little, Bump(little, w));
    BumpIs(little, w);
    StoreLoad(little, Bump(little, w));
    q := if w + Step(little) >= 0xFFFF then -1 else 0;
    if little {
      Swapped(a, b);
      Swapped(c, d);
      q := 256 * q + b - d;
    }
  }

  /** What changes, in numbers: the words of TTL and checksum. */
  lemma ForwardedParts(little: bool, h: seq<Byte>) returns (q: int)
    requires Header(h)
    ensures var r := Forwarded(little, h);
            && Rest(r) == Rest(h)
            && r[TTL] == (if h[TTL] == 0 then 255 else h[TTL] as int - 1)
            && Net(r[TTL], r[TTL + 1]) == Net(h[TTL], h[TTL + 1]) + (if h[TTL] == 0 then 255 * 256 else -256)
            && Net(r[CHECK], r[CHECK + 1]) != 0xFFFF
            && Net(r[CHECK], r[CHECK + 1]) == Net(h[CHECK], h[CHECK + 1]) + 256 + 0xFFFF * q
  {
    hide Bump, Store, Sum;
    var r := Forwarded(little, h);
    assert r[..TTL] == h[..TTL] && r[CHECK + 2..] == h[CHECK + 2..];
    q := BumpNet(little, h[CHECK], h[CHECK + 1]);
  }

  /** A forwarded header is right again exactly if its TTL was not 0. */
  lemma ForwardedRight(little: bool, h: seq<Byte>)
    requires Header(h) && Right(h) && h[TTL] != 1
    ensures Right(Forwarded(little, h)) <==> h[TTL] != 0
  {
    hide Fold, Right, Sum, Forwarded, Net, Rest;
    var r := Forwarded(little, h);
    SumParts(h);
    SumParts(r);
    RightIff(h);
    RightIff(r);
    var q := ForwardedParts(little, h);
    if h[TTL] == 0 {
      ModShift(Sum(h) as int + 1, q + 1);
    } else {
      ModShift(Sum(h), q);
      NotAllZero(r);
    }
  }

  /** 20 bytes: 45 00, then zeros, the TTL among them, and BA FF as the checksum. */
  function Expired(): (h: seq<Byte>)
    ensures Header(h) && |h| == 20 && h[TTL] == 0
  {
    [0x45, 0] + (seq(8, _ => 0) + ([0xBA, 0xFF] + seq(8, _ => 0)))
  }

  /** Its checksum is right; once it has been forwarded, it is not. */
  lemma ExpiredForwarded(little: bool)
    ensures Right(Expired()) && !Right(Forwarded(little, Expired()))
  {
    var zeros: seq<Byte> := seq(8, _ => 0);
    ZeroTail(zeros);
    SumAppend([0xBA, 0xFF], zeros);
    SumAppend(zeros, [0xBA, 0xFF] + zeros);
    SumAppend([0x45, 0], zeros + ([0xBA, 0xFF] + zeros));
    assert Sum([0x45, 0]) == 0x4500 && Sum([0xBA, 0xFF]) == 0xBAFF;
    hide Sum, Forwarded;
    assert Sum(Expired()) == 0xFFFF;
    ForwardedRight(little, Expired());
  }

  lemma {:induction false} ZeroTail(h: seq<Byte>)
    requires forall i | 0 <= i < |h| :: h[i] == 0
    ensures Sum(h) == 0
  {
    if |h| >= 2 {
      ZeroTail(h[2..]);
    }
  }

  lemma NotAllZero(h: seq<Byte>)
    requires Header(h) && h[TTL] > 0
    ensures Sum(h) > 0
  {
    SumParts(h);
  }

  // ----- section 3 of RFC 1624

  function Not(w: nat): nat
    requires w < 0x10000
  {
    0xFFFF - w
  }

  /** Equation 3: HC' = ~(~HC + ~m + m'), in one's complement arithmetic. */
  function Equation3(hc: nat, m: nat, m': nat): nat
    requires hc < 0x10000 && m < 0x10000 && m' < 0x10000
  {
    Not(Fold(Not(hc) + Not(m) + m'))
  }

  lemma IsEquation3(little: bool, h: seq<Byte>)
    requires Header(h) && h[TTL] != 0
    ensures var r := Forwarded(little, h);
            Net(r[CHECK], r[CHECK + 1])
            == Equation3(Net(h[CHECK], h[CHECK + 1]), Net(h[TTL], h[TTL + 1]), Net(r[TTL], r[TTL + 1]))
  {
    hide Fold, Net, Forwarded, Rest;
    var r := Forwarded(little, h);
    var hc: int, m: int := Net(h[CHECK], h[CHECK + 1]), Net(h[TTL], h[TTL + 1]);
    var q := ForwardedParts(little, h);
    var x: int := 2 * 0xFFFF - hc - 256;
    assert x == Not(hc) + Not(m) + Net(r[TTL], r[TTL + 1]);
    var k := Multiple(x);
    SameResidue(Net(r[CHECK], r[CHECK + 1]), 0xFFFF - Fold(x), q + 1 - k);
  }

  lemma Multiple(x: nat) returns (k: int)
    requires x > 0
    ensures x == Fold(x) + 0xFFFF * k && 0 < Fold(x)
  {
    FoldMod(x);
    k := x as int / 0xFFFF - Fold(x) as int / 0xFFFF;
  }
}
