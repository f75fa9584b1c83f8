/** One descriptor ring shared by the driver and the NIC: indices that wrap round,
    descriptors whose second word is written by both sides, and the slots attached
    to them. */
module Rings {
  import opened Common

  /** A descriptor is two 64-bit words. The driver writes both; when the NIC is done
      it writes the second one back, with the done bit set. */
  datatype Desc = Desc(addr: nat, word: nat)

  /** Where the done bit is: bit 0 of the second word on receive, bit 32 on
      transmit, where the status is the upper half of that word. */
  predicate Done(rx: bool, d: Desc) {
    if rx then d.word % 2 == 1 else (d.word / TWO32) % 2 == 1
  }

  /** `use` and `clean` are the driver's, `head` is the NIC's, and `tail` is the
      register by which the driver hands descriptors over. */
  datatype Ring = Ring(rx: bool, size: nat, use: nat, clean: nat, head: nat, tail: nat,
                       slot: seq<int>, desc: seq<Desc>)

  function Next(size: nat, i: nat): nat {
    if i + 1 < size then i + 1 else 0
  }

  /** Steps from a forward to b. */
  function Dist(size: nat, a: nat, b: nat): nat
    requires a < size && b < size
  {
    if a <= b then b - a else size - a + b
  }

  function At(size: nat, a: nat, k: nat): nat
    requires a < size && k < size
  {
    if a + k < size then a + k else a + k - size
  }

  /** The driver's own count of unused descriptors, in 16-bit arithmetic. */
  function Unused(r: Ring): int {
    if r.clean > r.use then r.clean - r.use - 1 else (r.size - r.use) + r.clean - 1
  }

  ghost predicate Indices(r: Ring) {
    && 2 <= r.size < 0x1_0000 && |r.slot| == r.size && |r.desc| == r.size
    && r.use < r.size && r.clean < r.size && r.head < r.size && r.tail < r.size
  }

  /** Descriptors given out and not yet taken back. */
  ghost function Outstanding(r: Ring): nat
    requires Indices(r)
  {
    Dist(r.size, r.clean, r.use)
  }

  /** Of those, how many the NIC has finished, and how many it has been given. */
  ghost function Finished(r: Ring): nat
    requires Indices(r)
  {
    Dist(r.size, r.clean, r.head)
  }

  ghost function Posted(r: Ring): nat
    requires Indices(r)
  {
    Dist(r.size, r.clean, r.tail)
  }

  /** Descriptor i belongs to the NIC: handed over and not finished. */
  ghost predicate NicOwns(r: Ring, i: nat)
    requires Indices(r) && i < r.size
  {
    Finished(r) <= Dist(r.size, r.clean, i) < Posted(r)
  }

  /** Between clean and use, the done bit is set exactly on what the NIC has
      finished. */
  ghost predicate RingOk(r: Ring)
    ensures RingOk(r) ==> Indices(r)
  {
    && Indices(r)
    && Finished(r) <= Posted(r) <= Outstanding(r)
    && forall k | 0 <= k < Outstanding(r) :: Done(r.rx, r.desc[At(r.size, r.clean, k)]) <==> k < Finished(r)
  }

  /** The slots in the ring, oldest first. */
  ghost function Window(r: Ring): (w: seq<int>)
    requires Indices(r)
    ensures |w| == Outstanding(r)
  {
    seq(Outstanding(r), k requires 0 <= k < Outstanding(r) => r.slot[At(r.size, r.clean, k)])
  }

  // ----- the steps

  /** Attach a slot to the next descriptor and write the descriptor. */
  function Assign(r: Ring, s: int, d: Desc): Ring
    requires Indices(r)
  {
    r.(slot := r.slot[r.use := s], desc := r.desc[r.use := d], use := Next(r.size, r.use))
  }

  /** Hand everything written so far to the NIC. */
  function Doorbell(r: Ring): Ring {
    r.(tail := r.use)
  }

  /** The NIC finishes the descriptor at its head. */
  function Complete(r: Ring, word: nat): Ring
    requires Indices(r)
  {
    r.(desc := r.desc[r.head := Desc(r.desc[r.head].addr, word)], head := Next(r.size, r.head))
  }

  /** Take the oldest descriptor back. */
  function Clean(r: Ring): Ring {
    r.(clean := Next(r.size, r.clean))
  }

  /** The driver's test before taking one back. */
  predicate CanClean(r: Ring)
    requires r.clean < |r.desc|
  {
    r.clean != r.use && Done(r.rx, r.desc[r.clean])
  }

  // ----- what they keep

  /** The count of unused descriptors is right for every position of the indices:
      outstanding plus unused is one less than the size, so a ring is never full and
      use meets clean only when it is empty. */
  lemma UnusedRight(r: Ring)
    requires Indices(r)
    ensures Outstanding(r) + Unused(r) == r.size - 1
    ensures 0 <= Unused(r) < 0x1_0000
    ensures r.use == r.clean <==> Outstanding(r) == 0
  {
  }

  lemma AssignOk(r: Ring, s: int, d: Desc)
    requires RingOk(r) && Unused(r) > 0 && !Done(r.rx, d)
    ensures RingOk(Assign(r, s, d)) && Window(Assign(r, s, d)) == Window(r) + [s]
    ensures var q := Assign(r, s, d);
            Finished(q) == Finished(r) && Posted(q) == Posted(r) && Outstanding(q) == Outstanding(r) + 1 && q.rx == r.rx
  {
    hide Done;
    var q := Assign(r, s, d);
    assert At(r.size, r.clean, Outstanding(r)) == r.use;
    forall k | 0 <= k < Outstanding(q)
      ensures Done(q.rx, q.desc[At(q.size, q.clean, k)]) <==> k < Finished(q)
    {
      if k < Outstanding(r) {
        assert At(r.size, r.clean, k) != r.use;
      }
    }
  }

  lemma DoorbellOk(r: Ring)
    requires RingOk(r)
    ensures RingOk(Doorbell(r)) && Window(Doorbell(r)) == Window(r)
    ensures Posted(Doorbell(r)) == Outstanding(Doorbell(r)) == Outstanding(r) && Doorbell(r).rx == r.rx
  {
    hide Done;
  }

  lemma CompleteOk(r: Ring, word: nat)
    requires RingOk(r) && r.head != r.tail && Done(r.rx, Desc(r.desc[r.head].addr, word))
    ensures RingOk(Complete(r, word)) && Window(Complete(r, word)) == Window(r)
    ensures Finished(Complete(r, word)) == Finished(r) + 1 && Posted(Complete(r, word)) == Posted(r)
    ensures Outstanding(Complete(r, word)) == Outstanding(r) && Complete(r, word).rx == r.rx
    ensures NicOwns(r, r.head)
  {
    hide Done;
    var q := Complete(r, word);
    forall k | 0 <= k < Outstanding(q)
      ensures Done(q.rx, q.desc[At(q.size, q.clean, k)]) <==> k < Finished(q)
    {
      if k != Finished(r) {
        assert At(r.size, r.clean, k) != r.head;
      }
    }
  }

  /** Taking one back is safe: the NIC has finished it since it was last written, and
      it is the oldest one in the ring. */
  lemma CleanOk(r: Ring)
    requires RingOk(r) && CanClean(r)
    ensures !NicOwns(r, r.clean) && Finished(r) > 0
    ensures RingOk(Clean(r)) && Window(r) == [r.slot[r.clean]] + Window(Clean(r))
    ensures Finished(Clean(r)) == Finished(r) - 1 && Posted(Clean(r)) == Posted(r) - 1
    ensures Outstanding(Clean(r)) == Outstanding(r) - 1 && Clean(r).rx == r.rx
  {
    hide Done;
    var q := Clean(r);
    assert At(r.size, r.clean, 0) == r.clean;
    forall k | 0 <= k < Outstanding(q)
      ensures At(q.size, q.clean, k) == At(r.size, r.clean, k + 1)
    {
    }
    assert Window(r) == [r.slot[r.clean]] + Window(q);
  }

  /** And it is not put off: the test fails only when nothing is outstanding or the
      NIC still has the oldest descriptor, or has not been given it. */
  lemma CanCleanIff(r: Ring)
    requires RingOk(r)
    ensures CanClean(r) <==> Finished(r) > 0
  {
    hide Done;
    if r.clean != r.use {
      assert At(r.size, r.clean, 0) == r.clean;
    }
  }

  // ----- what the NIC leaves alone

  /** Descriptors that are not the NIC's stay as they are and stay so. */
  ghost predicate LeftAlone(r: Ring, r': Ring)
    requires Indices(r) && Indices(r')
  {
    && r'.size == r.size
    && forall i | 0 <= i < r.size && !NicOwns(r, i) :: r'.desc[i] == r.desc[i] && !NicOwns(r', i)
  }

  lemma CompleteLeaves(r: Ring, word: nat)
    requires RingOk(r) && r.head != r.tail
    ensures LeftAlone(r, Complete(r, word))
  {
    hide Done;
  }

  /** A descriptor taken back is not the NIC's, and taking it back touches none. */
  lemma CleanLeaves(r: Ring)
    requires RingOk(r) && Finished(r) > 0
    ensures LeftAlone(r, Clean(r)) && !NicOwns(Clean(r), r.clean)
  {
    hide Done;
  }

  lemma LeftAloneTrans(r: Ring, s: Ring, t: Ring)
    requires Indices(r) && Indices(s) && Indices(t) && LeftAlone(r, s) && LeftAlone(s, t)
    ensures LeftAlone(r, t)
  {
    hide NicOwns;
  }
}
