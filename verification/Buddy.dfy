/** The buddy allocator as a function on trees: splitting, taking, giving back and
    merging blocks, and what every run of requests keeps. */
module Buddy {
  import opened Common

  /** A node of the allocator. A leaf is a block, in use or free; a fork has been
      split into two halves and is flagged as soon as something below it is in use. */
  datatype Tree = Leaf(used: bool) | Fork(used: bool, left: Tree, right: Tree)

  const FREE := Leaf(false)

  /** From the root: false for the first half, true for the second. */
  type Path = seq<bool>

  datatype Answer = Answer(tree: Tree, found: bool, path: Path)

  /** No free block anywhere. */
  predicate Full(t: Tree) {
    t.used && (t.Fork? ==> Full(t.left) && Full(t.right))
  }

  function Height(t: Tree): nat {
    if t.Leaf? then 0 else 1 + if Height(t.left) < Height(t.right) then Height(t.right) else Height(t.left)
  }

  /** Look for a block of at least `req` bytes, first half first, splitting free
      blocks that are at least twice as large. With a request of 0 this ends only if
      there is nothing to split. */
  function Alloc(t: Tree, size: nat, req: nat): Answer
    requires req > 0 || Full(t)
    decreases if req > 0 then size else Height(t)
  {
    if size / 2 < req then
      if !t.used && size >= req then Answer(t.(used := true), true, []) else Answer(t, false, [])
    else
      var s := if t.used then t else Fork(false, FREE, FREE);
      if s.Leaf? then Answer(s, false, [])
      else
        var a := Alloc(s.left, size / 2, req);
        if a.found then Answer(Fork(true, a.tree, s.right), true, [false] + a.path)
        else
          var b := Alloc(s.right, size / 2, req);
          if b.found then Answer(Fork(true, a.tree, b.tree), true, [true] + b.path)
          else Answer(Fork(s.used, a.tree, b.tree), false, [])
  }

  ghost predicate HasNode(t: Tree, p: Path) {
    p == [] || (t.Fork? && HasNode(if p[0] then t.right else t.left, p[1..]))
  }

  ghost function Sub(t: Tree, p: Path): Tree
    requires HasNode(t, p)
  {
    if p == [] then t else Sub(if p[0] then t.right else t.left, p[1..])
  }

  /** The block at this path is in use. */
  ghost predicate InUse(t: Tree, p: Path)
    ensures InUse(t, p) ==> HasNode(t, p)
  {
    HasNode(t, p) && Sub(t, p) == Leaf(true)
  }

  ghost predicate IsFree(t: Tree, p: Path) {
    HasNode(t, p) && Sub(t, p) == FREE
  }

  /** Give the block at a path back, and merge it with its other half for as long as
      that is free too. */
  ghost function Release(t: Tree, p: Path): Tree
    requires HasNode(t, p)
  {
    if p == [] then FREE
    else
      var below := Release(if p[0] then t.right else t.left, p[1..]);
      var other := if p[0] then t.left else t.right;
      if below == FREE && !other.used then FREE
      else if p[0] then Fork(t.used, t.left, below) else Fork(t.used, below, t.right)
  }

  /** Forks are flagged, and no two free halves lie side by side. */
  ghost predicate Merged(t: Tree) {
    t.Fork? ==> t.used && !(t.left == FREE && t.right == FREE) && Merged(t.left) && Merged(t.right)
  }

  // ----- where blocks are

  ghost function SizeAt(size: nat, p: Path): nat {
    if p == [] then size else SizeAt(size / 2, p[1..])
  }

  ghost function AddrAt(base: nat, size: nat, p: Path): nat
    decreases p
  {
    if p == [] then base
    else AddrAt(if p[0] then base + size / 2 else base, size / 2, p[1..])
  }

  lemma {:induction false} BlockInside(base: nat, size: nat, p: Path)
    ensures base <= AddrAt(base, size, p) && AddrAt(base, size, p) + SizeAt(size, p) <= base + size
    decreases p
  {
    if p != [] {
      BlockInside(if p[0] then base + size / 2 else base, size / 2, p[1..]);
    }
  }

  /** Two blocks in use never overlap. */
  lemma {:induction false} BlocksDisjoint(t: Tree, base: nat, size: nat, p: Path, q: Path)
    requires InUse(t, p) && InUse(t, q) && p != q
    ensures AddrAt(base, size, p) + SizeAt(size, p) <= AddrAt(base, size, q)
            || AddrAt(base, size, q) + SizeAt(size, q) <= AddrAt(base, size, p)
    decreases p
  {
    assert p != [] && q != [];
    var b, c := base + size / 2, size / 2;
    if p[0] == q[0] {
      assert p == [p[0]] + p[1..] && q == [q[0]] + q[1..];
      BlocksDisjoint(if p[0] then t.right else t.left, if p[0] then b else base, c, p[1..], q[1..]);
    } else {
      BlockInside(if p[0] then b else base, c, p[1..]);
      BlockInside(if q[0] then b else base, c, q[1..]);
    }
  }

  // ----- allocation

  /** Some free block is large enough. */
  ghost predicate Room(t: Tree, size: nat, req: nat) {
    match t
    case Leaf(u) => !u && size >= req
    case Fork(_, l, r) => Room(l, size / 2, req) || Room(r, size / 2, req)
  }

  lemma {:induction false} RoomMeans(t: Tree, size: nat, req: nat)
    ensures Room(t, size, req) <==> exists p :: IsFree(t, p) && SizeAt(size, p) >= req
  {
    match t
    case Leaf(u) =>
      assert HasNode(t, []) && Sub(t, []) == t && SizeAt(size, []) == size;
      if !u && size >= req {
        assert IsFree(t, []);
      }
      forall p | IsFree(t, p)
        ensures p == []
      {
      }
    case Fork(_, l, r) =>
      RoomMeans(l, size / 2, req);
      RoomMeans(r, size / 2, req);
      forall p | IsFree(t, p) && SizeAt(size, p) >= req
        ensures Room(t, size, req)
      {
        assert IsFree(if p[0] then r else l, p[1..]) && SizeAt(size / 2, p[1..]) >= req;
      }
      if Room(l, size / 2, req) {
        var p :| IsFree(l, p) && SizeAt(size / 2, p) >= req;
        assert ([false] + p)[1..] == p && IsFree(t, [false] + p) && SizeAt(size, [false] + p) >= req;
      }
      if Room(r, size / 2, req) {
        var p :| IsFree(r, p) && SizeAt(size / 2, p) >= req;
        assert ([true] + p)[1..] == p && IsFree(t, [true] + p) && SizeAt(size, [true] + p) >= req;
      }
  }

  lemma {:induction false} NoRoom(t: Tree, size: nat, req: nat)
    requires size < req
    ensures !Room(t, size, req)
  {
    if t.Fork? {
      NoRoom(t.left, size / 2, req);
      NoRoom(t.right, size / 2, req);
    }
  }

  /** Allocation fails exactly when no free block is large enough, and then nothing has
      changed. Otherwise the tree stays merged and the block is not twice as large as
      asked for. */
  lemma {:induction false} AllocWorks(t: Tree, size: nat, req: nat)
    requires (req > 0 || Full(t)) && Merged(t)
    ensures var a := Alloc(t, size, req);
            && (a.found <==> Room(t, size, req))
            && (!a.found ==> a.tree == t)
            && (a.found ==> Merged(a.tree) && a.tree.used && InUse(a.tree, a.path)
                            && req <= SizeAt(size, a.path) < 2 * req)
            && (a.found ==> req > 0)
    decreases if req > 0 then size else Height(t)
  {
    if size / 2 < req {
      if t.Fork? {
        NoRoom(t, size / 2, req);
        NoRoom(t.left, size / 2, req);
        NoRoom(t.right, size / 2, req);
      }
    } else {
      var s := if t.used then t else Fork(false, FREE, FREE);
      if s.Fork? {
        AllocWorks(s.left, size / 2, req);
        AllocWorks(s.right, size / 2, req);
        var a, b := Alloc(s.left, size / 2, req), Alloc(s.right, size / 2, req);
        assert ([false] + a.path)[1..] == a.path && ([true] + b.path)[1..] == b.path;
      }
    }
  }

  /** Giving back a block just allocated restores the tree exactly. */
  lemma {:induction false} ReleaseUndoesAlloc(t: Tree, size: nat, req: nat)
    requires req > 0 && Merged(t) && Alloc(t, size, req).found
    ensures var a := Alloc(t, size, req); HasNode(a.tree, a.path) && Release(a.tree, a.path) == t
    decreases size
  {
    AllocWorks(t, size, req);
    if size / 2 >= req {
      var s := if t.used then t else Fork(false, FREE, FREE);
      AllocWorks(s.left, size / 2, req);
      AllocWorks(s.right, size / 2, req);
      var a, b := Alloc(s.left, size / 2, req), Alloc(s.right, size / 2, req);
      assert ([false] + a.path)[1..] == a.path && ([true] + b.path)[1..] == b.path;
      if a.found {
        ReleaseUndoesAlloc(s.left, size / 2, req);
      } else {
        ReleaseUndoesAlloc(s.right, size / 2, req);
      }
    }
  }

  /** The new block was not in use before; every other block is as it was. */
  lemma {:induction false} AllocAddsOne(t: Tree, size: nat, req: nat, q: Path)
    requires req > 0 && Merged(t) && Alloc(t, size, req).found
    ensures var a := Alloc(t, size, req); InUse(a.tree, q) <==> q == a.path || InUse(t, q)
    ensures !InUse(t, Alloc(t, size, req).path)
    decreases size
  {
    AllocWorks(t, size, req);
    if size / 2 >= req {
      var s := if t.used then t else Fork(false, FREE, FREE);
      AllocWorks(s.left, size / 2, req);
      AllocWorks(s.right, size / 2, req);
      var a, b := Alloc(s.left, size / 2, req), Alloc(s.right, size / 2, req);
      var rest := if q == [] then [] else q[1..];
      assert ([false] + a.path)[1..] == a.path && ([true] + b.path)[1..] == b.path;
      assert q != [] ==> q == [q[0]] + rest;
      if a.found {
        AllocAddsOne(s.left, size / 2, req, rest);
      } else {
        AllocAddsOne(s.right, size / 2, req, rest);
      }
    }
  }

  /** Of all free blocks with room, the search takes the one that starts first: none starts
      before the block found. */
  lemma {:induction false} AllocFirst(t: Tree, base: nat, size: nat, req: nat, q: Path)
    requires req > 0 && Merged(t) && Alloc(t, size, req).found && IsFree(t, q) && SizeAt(size, q) >= req
    ensures AddrAt(base, size, Alloc(t, size, req).path) <= AddrAt(base, size, q)
    decreases size
  {
    var found := Alloc(t, size, req);
    BlockInside(base, size, q);
    if size / 2 >= req {
      var s := if t.used then t else Fork(false, FREE, FREE);
      var a, b := Alloc(s.left, size / 2, req), Alloc(s.right, size / 2, req);
      assert ([false] + a.path)[1..] == a.path && ([true] + b.path)[1..] == b.path;
      if t.Leaf? {
        StartsHere(t, base, size, req);
      } else {
        AllocWorks(s.left, size / 2, req);
        var rest := q[1..];
        if a.found && !q[0] {
          AllocFirst(s.left, base, size / 2, req, rest);
        } else if a.found {
          BlockInside(base, size / 2, a.path);
          BlockInside(base + size / 2, size / 2, rest);
        } else if q[0] {
          AllocFirst(s.right, base + size / 2, size / 2, req, rest);
        } else {
          RoomMeans(s.left, size / 2, req);
          assert IsFree(s.left, rest);
        }
      }
    }
  }

  /** A block taken out of a free one is the front of it. */
  lemma {:induction false} StartsHere(t: Tree, base: nat, size: nat, req: nat)
    requires req > 0 && t == FREE && size >= req
    ensures Alloc(t, size, req).found && AddrAt(base, size, Alloc(t, size, req).path) == base
    decreases size
  {
    if size / 2 >= req {
      StartsHere(FREE, base, size / 2, req);
      var a := Alloc(FREE, size / 2, req);
      assert ([false] + a.path)[1..] == a.path;
    }
  }

  /** And it is the front of one of them. */
  lemma {:induction false} AllocInFree(t: Tree, base: nat, size: nat, req: nat) returns (q: Path)
    requires req > 0 && Merged(t) && Alloc(t, size, req).found
    ensures IsFree(t, q) && SizeAt(size, q) >= req
    ensures AddrAt(base, size, Alloc(t, size, req).path) == AddrAt(base, size, q)
    decreases size
  {
    if size / 2 < req {
      q := [];
    } else if t.Leaf? {
      q := [];
      StartsHere(t, base, size, req);
    } else {
      var a, b := Alloc(t.left, size / 2, req), Alloc(t.right, size / 2, req);
      assert ([false] + a.path)[1..] == a.path && ([true] + b.path)[1..] == b.path;
      if a.found {
        q := AllocInFree(t.left, base, size / 2, req);
        assert ([false] + q)[1..] == q;
        q := [false] + q;
      } else {
        q := AllocInFree(t.right, base + size / 2, size / 2, req);
        assert ([true] + q)[1..] == q;
        q := [true] + q;
      }
    }
  }

  // ----- how deep the search goes

  /** The search with only so many nested calls allowed. */
  datatype Outcome = Deeper | Returned(found: bool)

  ghost function Descend(t: Tree, size: nat, req: nat, calls: nat): Outcome
    decreases calls
  {
    if calls == 0 then Deeper
    else if size / 2 < req then Returned(!t.used && size >= req)
    else
      var s := if t.used then t else Fork(false, FREE, FREE);
      if s.Leaf? then Returned(false)
      else
        var a := Descend(s.left, size / 2, req, calls - 1);
        if a == Returned(false) then Descend(s.right, size / 2, req, calls - 1) else a
  }

  /** A request for at least one byte is answered within as many nested calls as the
      region has bytes, and one more. */
  lemma {:induction false} DescentEnds(t: Tree, size: nat, req: nat, calls: nat)
    requires req > 0 && calls > size
    ensures Descend(t, size, req, calls) == Returned(Alloc(t, size, req).found)
    decreases size
  {
    if size / 2 >= req {
      var s := if t.used then t else Fork(false, FREE, FREE);
      if s.Fork? {
        DescentEnds(s.left, size / 2, req, calls - 1);
        DescentEnds(s.right, size / 2, req, calls - 1);
      }
    }
  }

  lemma {:induction false} FullEnds(t: Tree, size: nat, calls: nat)
    requires Full(t)
    ensures Descend(t, size, 0, calls) == if calls > Height(t) then Returned(false) else Deeper
    decreases calls
  {
    if calls > 0 && t.Fork? {
      FullEnds(t.left, size / 2, calls - 1);
      FullEnds(t.right, size / 2, calls - 1);
    }
  }

  lemma {:induction false} NeverEnds(t: Tree, size: nat, calls: nat)
    requires Merged(t) && !Full(t)
    ensures Descend(t, size, 0, calls) == Deeper
    decreases calls
  {
    if calls > 0 {
      var s := if t.used then t else Fork(false, FREE, FREE);
      if Full(s.left) {
        FullEnds(s.left, size / 2, calls - 1);
        NeverEnds(s.right, size / 2, calls - 1);
      } else {
        NeverEnds(s.left, size / 2, calls - 1);
      }
    }
  }

  /** A request that has been rounded to 0 is answered at all, and then with nothing, if and
      only if there is no free block; otherwise the search splits without end. */
  lemma ZeroEndsIff(t: Tree, size: nat)
    requires Merged(t)
    ensures (exists calls: nat :: Descend(t, size, 0, calls) != Deeper) <==> Full(t)
    ensures forall calls: nat :: Descend(t, size, 0, calls) != Returned(true)
  {
    if Full(t) {
      FullEnds(t, size, Height(t) + 1);
    }
    forall calls: nat
      ensures Full(t) || Descend(t, size, 0, calls) == Deeper
      ensures Descend(t, size, 0, calls) != Returned(true)
    {
      if Full(t) {
        FullEnds(t, size, calls);
      } else {
        NeverEnds(t, size, calls);
      }
    }
  }

  // ----- giving back

  lemma {:induction false} ReleaseMerged(t: Tree, p: Path)
    requires Merged(t) && InUse(t, p)
    ensures Merged(Release(t, p))
  {
    if p != [] {
      ReleaseMerged(if p[0] then t.right else t.left, p[1..]);
    }
  }

  lemma {:induction false} ReleaseRemovesOne(t: Tree, p: Path, q: Path)
    requires Merged(t) && InUse(t, p)
    ensures InUse(Release(t, p), q) <==> InUse(t, q) && q != p
  {
    if p == [] {
      assert q != [] ==> !HasNode(t, q);
    } else {
      var rest := if q == [] then [] else q[1..];
      assert q != [] ==> q == [q[0]] + rest;
      assert p == [p[0]] + p[1..];
      ReleaseRemovesOne(if p[0] then t.right else t.left, p[1..], rest);
      var other := if p[0] then t.left else t.right;
      if !other.used {
        MergedUsed(other, rest);
      }
    }
  }

  /** A part that is not flagged has no block in use. */
  lemma MergedUsed(t: Tree, q: Path)
    requires Merged(t) && !t.used
    ensures t == FREE && !InUse(t, q)
  {
    assert t == FREE;
  }

  /** With nothing in use the tree is a single free block again. */
  lemma {:induction false} NothingInUse(t: Tree)
    requires Merged(t) && forall p :: !InUse(t, p)
    ensures t == FREE
  {
    match t
    case Leaf(u) =>
      assert !InUse(t, []) && Sub(t, []) == t;
    case Fork(_, l, r) =>
      forall p
        ensures !InUse(l, p) && !InUse(r, p)
      {
        assert ([false] + p)[1..] == p && ([true] + p)[1..] == p;
        assert !InUse(t, [false] + p) && !InUse(t, [true] + p);
      }
      NothingInUse(l);
      NothingInUse(r);
  }

  // ----- whole runs

  /** A request for `req` bytes, or giving back the block at a path. */
  datatype Op = Get(req: nat) | Put(path: Path)

  /** The tree, and what was asked for each block in use. */
  datatype State = State(tree: Tree, live: map<Path, nat>)

  ghost predicate Good(st: State, size: nat) {
    && Merged(st.tree)
    && (forall p :: InUse(st.tree, p) <==> p in st.live)
    && (forall p | p in st.live :: 0 < st.live[p] <= SizeAt(size, p) < 2 * st.live[p])
  }

  ghost predicate Allowed(st: State, op: Op) {
    match op
    case Get(req) => req > 0 || Full(st.tree)
    case Put(p) => p in st.live
  }

  ghost function Step(st: State, size: nat, op: Op): State
    requires Good(st, size) && Allowed(st, op)
  {
    match op
    case Get(req) =>
      var a := Alloc(st.tree, size, req);
      if a.found then State(a.tree, st.live[a.path := req]) else State(a.tree, st.live)
    case Put(p) =>
      assert InUse(st.tree, p);
      State(Release(st.tree, p), st.live - {p})
  }

  lemma StepGood(st: State, size: nat, op: Op)
    requires Good(st, size) && Allowed(st, op)
    ensures Good(Step(st, size, op), size)
  {
    hide Alloc, Release, InUse, Merged, SizeAt;
    match op
    case Get(req) =>
      AllocWorks(st.tree, size, req);
      var a := Alloc(st.tree, size, req);
      if a.found {
        forall p
          ensures InUse(a.tree, p) <==> p in st.live[a.path := req]
        {
          AllocAddsOne(st.tree, size, req, p);
        }
      }
    case Put(q) =>
      ReleaseMerged(st.tree, q);
      forall p
        ensures InUse(Release(st.tree, q), p) <==> p in st.live - {q}
      {
        ReleaseRemovesOne(st.tree, q, p);
      }
  }

  ghost predicate Legal(st: State, size: nat, ops: seq<Op>)
    requires Good(st, size)
    decreases |ops|
  {
    ops == [] || (Allowed(st, ops[0]) && (StepGood(st, size, ops[0]); Legal(Step(st, size, ops[0]), size, ops[1..])))
  }

  ghost function Run(st: State, size: nat, ops: seq<Op>): (end: State)
    requires Good(st, size) && Legal(st, size, ops)
    ensures Good(end, size)
    decreases |ops|
  {
    if ops == [] then st
    else
      StepGood(st, size, ops[0]);
      Run(Step(st, size, ops[0]), size, ops[1..])
  }

  const START := State(FREE, map[])

  lemma StartGood(size: nat)
    ensures Good(START, size)
  {
    forall p
      ensures !InUse(FREE, p)
    {
    }
  }

  /** After every run of requests and returns, in any order: blocks in use are inside
      the region, pairwise disjoint and as large as asked for; a request fails exactly
      when no free block is large enough; and if everything has been given back, the
      region is one free block again. */
  lemma EveryRun(base: nat, size: nat, ops: seq<Op>)
    requires Good(START, size) && Legal(START, size, ops)
    ensures var end := Run(START, size, ops);
            && (forall p | p in end.live ::
                  && base <= AddrAt(base, size, p) && AddrAt(base, size, p) + SizeAt(size, p) <= base + size
                  && end.live[p] <= SizeAt(size, p) < 2 * end.live[p])
            && (forall p, q | p in end.live && q in end.live && p != q ::
                  AddrAt(base, size, p) + SizeAt(size, p) <= AddrAt(base, size, q)
                  || AddrAt(base, size, q) + SizeAt(size, q) <= AddrAt(base, size, p))
            && (forall req | req > 0 :: Alloc(end.tree, size, req).found <==> Room(end.tree, size, req))
            && (end.live == map[] ==> end.tree == FREE)
  {
    hide InUse, Merged, AddrAt, SizeAt, Alloc, Room, Legal, Run;
    var end := Run(START, size, ops);
    forall p | p in end.live
      ensures base <= AddrAt(base, size, p) && AddrAt(base, size, p) + SizeAt(size, p) <= base + size
    {
      BlockInside(base, size, p);
    }
    forall p, q | p in end.live && q in end.live && p != q
      ensures AddrAt(base, size, p) + SizeAt(size, p) <= AddrAt(base, size, q)
              || AddrAt(base, size, q) + SizeAt(size, q) <= AddrAt(base, size, p)
    {
      BlocksDisjoint(end.tree, base, size, p, q);
    }
    forall req | req > 0
      ensures Alloc(end.tree, size, req).found <==> Room(end.tree, size, req)
    {
      AllocWorks(end.tree, size, req);
    }
    if end.live == map[] {
      NothingInUse(end.tree);
    }
  }

  // ----- the size of a request, in 32-bit arithmetic

  const LINE: nat := 64

  function RoundUp(n: nat): nat {
    (n + (LINE - 1)) / LINE * LINE
  }

  /** The request rounded up to a cache line plus a line for the header, as computed in
      32 bits. */
  function Padded(n: nat): nat {
    (((n + (LINE - 1)) % TWO32) / LINE * LINE + LINE) % TWO32
  }

  /** The padded request has room for the bytes asked for and the header exactly when
      the rounding does not wrap. */
  lemma PaddedHolds(n: nat)
    requires n < TWO32
    ensures Padded(n) >= n + LINE <==> n <= TWO32 - 2 * LINE
    ensures n <= TWO32 - 2 * LINE ==> Padded(n) == RoundUp(n) + LINE
    ensures Padded(n) == 0 <==> TWO32 - 2 * LINE < n <= TWO32 - LINE
    ensures Padded(n) > 0 ==> Padded(n) >= LINE
    ensures n <= TWO32 - 2 * LINE ==> Padded(n) % 64 == 0 && n + 64 <= Padded(n) < n + 128
  {
    if n + (LINE - 1) < TWO32 {
      assert (n + (LINE - 1)) % TWO32 == n + (LINE - 1);
    } else {
      assert (n + (LINE - 1)) % TWO32 == n + (LINE - 1) - TWO32 < LINE;
    }
  }
}
