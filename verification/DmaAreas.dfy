/** The list of DMA areas of an adapter: where a new area goes, looking one up, and taking
    areas out again. */
module DmaAreas {
  import opened Common

  datatype Area = Area(start: nat, size: nat)

  /** The end of an area, in the arithmetic of the machine. */
  function End(a: Area): nat {
    (a.start + a.size) % TWO64
  }

  /** Neither empty nor wrapping around. */
  predicate Sane(a: Area) {
    a.size > 0 && a.start + a.size < TWO64
  }

  predicate Overlap(a: Area, b: Area) {
    a.start < End(b) && b.start < End(a)
  }

  /** Sticks out on both sides. */
  predicate Encloses(a: Area, b: Area) {
    a.start < b.start && End(b) < End(a)
  }

  ghost predicate Ordered(areas: seq<Area>) {
    && (forall i | 0 <= i < |areas| :: Sane(areas[i]))
    && (forall i, j | 0 <= i < j < |areas| :: End(areas[i]) <= areas[j].start)
  }

  ghost predicate Disjoint(areas: seq<Area>) {
    forall i, j | 0 <= i < j < |areas| :: !Overlap(areas[i], areas[j])
  }

  /** The code's test for an overlap of a new area with a listed one. */
  predicate Found(range: Area, a: Area) {
    (range.start >= a.start && range.start < End(a)) || (End(range) > a.start && End(range) <= End(a))
  }

  /** It finds an overlap exactly if the new area does not enclose the listed one. */
  lemma FoundIff(range: Area, a: Area)
    requires Sane(range) && Sane(a)
    ensures Found(range, a) <==> Overlap(range, a) && !Encloses(range, a)
  {
  }

  function Inserted(areas: seq<Area>, k: nat, a: Area): seq<Area>
    requires k <= |areas|
  {
    areas[..k] + [a] + areas[k..]
  }

  /** Everything before place k starts before the new area ends, everything from there on
      starts after it. */
  ghost predicate Place(areas: seq<Area>, range: Area, k: nat) {
    && k <= |areas|
    && (forall i | 0 <= i < k :: areas[i].start < End(range))
    && (forall i | k <= i < |areas| :: End(range) <= areas[i].start)
  }

  /** Item i of the old list is item i or i + 1 of the new one. */
  lemma InsertedAt(areas: seq<Area>, range: Area, k: nat, i: nat)
    requires k <= |areas| && i <= |areas|
    ensures Inserted(areas, k, range)[k] == range
    ensures i != k ==> Inserted(areas, k, range)[i] == areas[if i < k then i else i - 1]
  {
  }

  lemma InsertedKeeps(areas: seq<Area>, range: Area, k: nat)
    requires Ordered(areas) && Sane(range) && Place(areas, range, k)
    requires forall i | 0 <= i < |areas| :: !Overlap(areas[i], range)
    ensures Ordered(Inserted(areas, k, range))
  {
    hide End, Inserted;
    var after := Inserted(areas, k, range);
    Unfold(areas, k, range);
    forall i | 0 <= i < |after|
      ensures Sane(after[i])
    {
      InsertedAt(areas, range, k, i);
    }
    forall i, j | 0 <= i < j < |after|
      ensures End(after[i]) <= after[j].start
    {
      InsertedAt(areas, range, k, i);
      InsertedAt(areas, range, k, j);
      if j == k {
        assert !Overlap(areas[i], range);
      }
    }
  }

  lemma Unfold(areas: seq<Area>, k: nat, range: Area)
    requires k <= |areas|
    ensures |Inserted(areas, k, range)| == |areas| + 1
  {
  }

  /** Putting a new area into its place keeps the list in order exactly if it overlaps
      nothing; otherwise the list is not even disjoint any more. */
  lemma InsertedOrdered(areas: seq<Area>, range: Area, k: nat)
    requires Ordered(areas) && Sane(range) && Place(areas, range, k)
    ensures var after := Inserted(areas, k, range);
            var free := forall i | 0 <= i < |areas| :: !Overlap(areas[i], range);
            (Ordered(after) <==> free) && (Disjoint(after) <==> free)
  {
    hide Ordered, Inserted, End;
    var after := Inserted(areas, k, range);
    Unfold(areas, k, range);
    if i :| 0 <= i < |areas| && Overlap(areas[i], range) {
      assert i < k;
      InsertedAt(areas, range, k, i);
      assert Overlap(after[i], after[k]);
    } else {
      InsertedKeeps(areas, range, k);
    }
    if Ordered(after) {
      OrderedDisjoint(after);
    }
  }

  lemma OrderedDisjoint(areas: seq<Area>)
    requires Ordered(areas)
    ensures Disjoint(areas)
  {
  }

  // ----- whole runs, against a plain set of ranges

  /** Where the scan from item i on puts a new area: before the first one that starts at
      or after its end, unless an overlap is found on the way. */
  function WhereFrom(areas: seq<Area>, i: nat, range: Area): (where: Option<nat>)
    requires i <= |areas|
    ensures where.Some? ==> where.value <= |areas|
    decreases |areas| - i
  {
    if i == |areas| || End(range) <= areas[i].start then Some(i)
    else if Found(range, areas[i]) then None
    else WhereFrom(areas, i + 1, range)
  }

  ghost predicate Refused(areas: seq<Area>, range: Area) {
    exists i :: 0 <= i < |areas| && Found(range, areas[i])
  }

  /** In a list in order, the scan finds every overlap that the test can find, and the right
      place otherwise. */
  lemma {:induction false} WhereIs(areas: seq<Area>, i: nat, range: Area)
    requires Ordered(areas) && Sane(range) && i <= |areas|
    requires forall j | 0 <= j < i :: areas[j].start < End(range) && !Found(range, areas[j])
    ensures WhereFrom(areas, i, range) == None <==> Refused(areas, range)
    ensures WhereFrom(areas, i, range).Some? ==> Place(areas, range, WhereFrom(areas, i, range).value)
    decreases |areas| - i
  {
    hide End;
    if i < |areas| {
      if areas[i].start < End(range) && !Found(range, areas[i]) {
        WhereIs(areas, i + 1, range);
      } else if End(range) <= areas[i].start {
        forall j | i <= j < |areas|
          ensures End(range) <= areas[j].start && !Found(range, areas[j])
        {
          EndAfterStart(areas[i]);
          EndAfterStart(range);
        }
      }
    }
  }

  ghost function Without(areas: seq<Area>, start: nat): seq<Area> {
    if areas == [] then []
    else if areas[0].start == start then areas[1..]
    else [areas[0]] + Without(areas[1..], start)
  }

  datatype Op = Add(range: Area) | Remove(start: nat)

  ghost function Step(areas: seq<Area>, op: Op): seq<Area> {
    match op
    case Add(range) =>
      var where := WhereFrom(areas, 0, range);
      if where == None then areas else Inserted(areas, where.value, range)
    case Remove(start) => Without(areas, start)
  }

  ghost function Exec(areas: seq<Area>, ops: seq<Op>): seq<Area>
    decreases |ops|
  {
    if ops == [] then areas else Exec(Step(areas, ops[0]), ops[1..])
  }

  /** Ranges as a set: one is added exactly if it overlaps none. */
  ghost function RefStep(ranges: set<Area>, op: Op): set<Area> {
    match op
    case Add(range) => if forall a | a in ranges :: !Overlap(a, range) then ranges + {range} else ranges
    case Remove(start) => set a | a in ranges && a.start != start
  }

  ghost function RefExec(ranges: set<Area>, ops: seq<Op>): set<Area>
    decreases |ops|
  {
    if ops == [] then ranges else RefExec(RefStep(ranges, ops[0]), ops[1..])
  }

  /** No range that is added encloses one that is there. */
  ghost predicate NoneEnclosed(ranges: set<Area>, ops: seq<Op>)
    decreases |ops|
  {
    ops == [] ||
    (&& (ops[0].Add? ==> Sane(ops[0].range) && forall a | a in ranges :: !Encloses(ops[0].range, a))
     && NoneEnclosed(RefStep(ranges, ops[0]), ops[1..]))
  }

  ghost function Elements(areas: seq<Area>): set<Area> {
    set a | a in areas
  }

  lemma {:induction false} WithoutIs(areas: seq<Area>, start: nat)
    requires Ordered(areas)
    ensures Ordered(Without(areas, start))
    ensures forall a :: a in Without(areas, start) <==> a in areas && a.start != start
  {
    hide End;
    if areas != [] {
      var first, rest := areas[0], areas[1..];
      assert areas == [first] + rest;
      assert forall i | 0 <= i < |rest| :: rest[i] == areas[i + 1];
      WithoutIs(rest, start);
      EndAfterStart(first);
      forall a | a in rest
        ensures End(first) <= a.start
      {
        var i :| 0 <= i < |rest| && rest[i] == a;
      }
      if first.start != start {
        var w := Without(rest, start);
        forall i | 0 <= i < |w|
          ensures End(first) <= w[i].start
        {
          assert w[i] in w;
        }
      }
    }
  }

  lemma InsertedElements(areas: seq<Area>, k: nat, range: Area)
    requires k <= |areas|
    ensures Elements(Inserted(areas, k, range)) == Elements(areas) + {range}
  {
    var after := Inserted(areas, k, range);
    assert areas == areas[..k] + areas[k..];
    assert forall a :: a in after <==> a in areas || a == range;
  }

  lemma AddAgrees(areas: seq<Area>, range: Area)
    requires Ordered(areas) && Sane(range) && forall a | a in areas :: !Encloses(range, a)
    ensures var after := Step(areas, Add(range));
            Ordered(after) && Elements(after) == RefStep(Elements(areas), Add(range))
  {
    hide End, Inserted, Ordered, Sane, Overlap, Encloses, Place;
    RefusedMeans(areas, range);
    var where := WhereFrom(areas, 0, range);
    hide WhereFrom;
    if where == None {
      var i :| 0 <= i < |areas| && Overlap(areas[i], range) && !Encloses(range, areas[i]);
      assert areas[i] in Elements(areas);
    } else {
      InsertedOrdered(areas, range, where.value);
      InsertedElements(areas, where.value, range);
    }
  }

  lemma StepAgrees(areas: seq<Area>, op: Op)
    requires Ordered(areas)
    requires op.Add? ==> Sane(op.range) && forall a | a in areas :: !Encloses(op.range, a)
    ensures Ordered(Step(areas, op)) && Elements(Step(areas, op)) == RefStep(Elements(areas), op)
  {
    hide Ordered, WhereFrom, Inserted, Encloses;
    match op
    case Add(range) => AddAgrees(areas, range);
    case Remove(start) => WithoutIs(areas, start);
  }

  /** Over every run in which no added range encloses a listed one: the list stays in order
      and disjoint, and holds exactly what the set holds, so a range is refused exactly if
      it overlaps a listed one. */
  lemma {:induction false} EveryRun(areas: seq<Area>, ops: seq<Op>)
    requires Ordered(areas) && NoneEnclosed(Elements(areas), ops)
    ensures var end := Exec(areas, ops);
            Ordered(end) && Disjoint(end) && Elements(end) == RefExec(Elements(areas), ops)
    decreases |ops|
  {
    hide Ordered, Disjoint, Step, RefStep, Elements;
    if ops == [] {
      OrderedDisjoint(areas);
    } else {
      InElements(areas);
      StepAgrees(areas, ops[0]);
      EveryRun(Step(areas, ops[0]), ops[1..]);
    }
  }

  lemma InElements(areas: seq<Area>)
    ensures forall a | a in areas :: a in Elements(areas)
  {
  }

  class Adapter {
    var areas: seq<Area>

    constructor ()
      ensures areas == []
    {
      areas := [];
    }

    /** Where a new area goes, or nothing if an overlap is found. In a list in order, an
        overlap is found exactly if some overlapped area is not enclosed. */
    method WhereTo(range: Area) returns (where: Option<nat>)
      ensures where == WhereFrom(areas, 0, range)
      ensures Ordered(areas) && Sane(range) ==>
                && (where == None <==>
                      exists i :: 0 <= i < |areas| && Overlap(areas[i], range) && !Encloses(range, areas[i]))
                && (where.Some? ==> Place(areas, range, where.value))
    {
      if Ordered(areas) && Sane(range) {
        RefusedMeans(areas, range);
      }
      var last, i := 0, 0;
      while i < |areas|
        invariant i <= |areas| && last == i && WhereFrom(areas, 0, range) == WhereFrom(areas, i, range)
      {
        if End(range) <= areas[i].start {
          break;
        }
        last := i + 1;
        if Found(range, areas[i]) {
          return None;
        }
        i := i + 1;
      }
      where := Some(last);
    }

    /** Add an area; `memory` says whether a list node can be had. A list in order stays so
        exactly if no listed area is enclosed. */
    method Map(range: Area, memory: bool) returns (ok: bool)
      modifies this
      ensures ok <==> memory && WhereFrom(old(areas), 0, range).Some?
      ensures areas == if ok then Step(old(areas), Add(range)) else old(areas)
      ensures Ordered(old(areas)) && Sane(range) && memory ==>
                (ok <==> forall i | 0 <= i < |old(areas)| && Overlap(old(areas)[i], range) :: Encloses(range, old(areas)[i]))
      ensures Ordered(old(areas)) && Sane(range) && ok ==>
                var enclosed := exists i :: 0 <= i < |old(areas)| && Encloses(range, old(areas)[i]);
                (Ordered(areas) <==> !enclosed) && (Disjoint(areas) <==> !enclosed)
    {
      hide WhereFrom, Ordered, Disjoint, Overlap, Encloses, Sane, Place;
      ghost var was := areas;
      var where := WhereTo(range);
      if where == None || !memory {
        return false;
      }
      areas := Inserted(areas, where.value, range);
      ok := true;
      if Ordered(was) && Sane(range) {
        PlacedIff(was, range, where.value);
      }
    }

    method Lookup(start: nat) returns (at: Option<nat>)
      ensures at == None <==> forall i | 0 <= i < |areas| :: areas[i].start != start
      ensures at.Some? ==>
                && at.value < |areas| && areas[at.value].start == start
                && forall i | 0 <= i < at.value :: areas[i].start != start
    {
      var i := 0;
      while i < |areas|
        invariant i <= |areas| && forall j | 0 <= j < i :: areas[j].start != start
      {
        if areas[i].start == start {
          return Some(i);
        }
        i := i + 1;
      }
      at := None;
    }

    /** Take out the area that starts at an address. */
    method Unmap(start: nat) returns (ok: bool)
      modifies this
      ensures Ordered(old(areas)) ==> Ordered(areas)
      ensures ok <==> exists i :: 0 <= i < |old(areas)| && old(areas)[i].start == start
      ensures !ok ==> areas == old(areas)
      ensures ok ==> areas == Step(old(areas), Remove(start)) && |areas| == |old(areas)| - 1
    {
      if Ordered(areas) {
        WithoutIs(areas, start);
      }
      var at := Lookup(start);
      if at == None {
        return false;
      }
      WithoutAt(areas, start, at.value);
      areas := areas[..at.value] + areas[at.value + 1..];
      ok := true;
    }

    method UnmapAll()
      modifies this
      ensures areas == []
    {
      while areas != []
        decreases |areas|
      {
        areas := areas[1..];
      }
    }
  }

  lemma {:induction false} WithoutAt(areas: seq<Area>, start: nat, k: nat)
    requires k < |areas| && areas[k].start == start && forall i | 0 <= i < k :: areas[i].start != start
    ensures Without(areas, start) == areas[..k] + areas[k + 1..]
  {
    if k > 0 {
      WithoutAt(areas[1..], start, k - 1);
    }
  }

  lemma RefusedMeans(areas: seq<Area>, range: Area)
    requires Ordered(areas) && Sane(range)
    ensures var where := WhereFrom(areas, 0, range);
            && (where == None <==>
                  exists i :: 0 <= i < |areas| && Overlap(areas[i], range) && !Encloses(range, areas[i]))
            && (where.Some? ==> Place(areas, range, where.value))
  {
    hide End;
    WhereIs(areas, 0, range);
    forall i | 0 <= i < |areas|
      ensures Found(range, areas[i]) <==> Overlap(areas[i], range) && !Encloses(range, areas[i])
    {
      FoundIff(range, areas[i]);
    }
  }

  /** Once a place is found, order and disjointness survive exactly if nothing is enclosed. */
  lemma PlacedIff(areas: seq<Area>, range: Area, k: nat)
    requires Ordered(areas) && Sane(range) && WhereFrom(areas, 0, range) == Some(k)
    ensures var after := Inserted(areas, k, range);
            var enclosed := exists i :: 0 <= i < |areas| && Encloses(range, areas[i]);
            (Ordered(after) <==> !enclosed) && (Disjoint(after) <==> !enclosed)
  {
    hide End, WhereFrom, Disjoint;
    RefusedMeans(areas, range);
    InsertedOrdered(areas, range, k);
    forall i | 0 <= i < |areas|
      ensures Encloses(range, areas[i]) <==> Overlap(areas[i], range)
    {
      EndAfterStart(areas[i]);
      EndAfterStart(range);
    }
  }

  /** A range from 5 to 25 is accepted although 10 to 11 is listed, and the list is not
      disjoint afterwards. */
  lemma EnclosingAccepted()
    ensures var areas, range := [Area(10, 1)], Area(5, 20);
            && Ordered(areas) && Sane(range) && WhereFrom(areas, 0, range) == Some(1)
            && Step(areas, Add(range)) == [Area(10, 1), Area(5, 20)] && !Disjoint(Step(areas, Add(range)))
  {
    var areas, range := [Area(10, 1)], Area(5, 20);
    assert WhereFrom(areas, 1, range) == Some(1);
    var after := [Area(10, 1), Area(5, 20)];
    assert Inserted(areas, 1, range) == after;
    assert Overlap(after[0], after[1]);
  }

  lemma EndAfterStart(a: Area)
    requires Sane(a)
    ensures a.start < End(a)
  {
  }
}
