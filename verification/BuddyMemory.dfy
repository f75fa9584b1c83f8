/** Allocation as its callers see it: padded requests, addresses behind a header, and the
    bytes of the region, which clients write as they like inside their own blocks. */
module BuddyMemory {
  import opened Common
  import opened Buddy
  import opened BuddyPaths
  import opened BuddyHeap

  /** A byte of the region: plain data, or one byte of a stored pointer. */
  datatype Cell = Data(value: nat) | Part(of: MNode, index: nat)

  const HEADER: nat := 8

  ghost predicate Header(memory: seq<Cell>, off: int, node: MNode) {
    0 <= off && off + HEADER <= |memory| && forall i | 0 <= i < HEADER :: memory[off + i] == Part(node, i)
  }

  /** A change inside one block in use leaves the headers of the others alone. */
  lemma OtherHeader(t: Tree, size: nat, p: Path, q: Path, was: seq<Cell>, now: seq<Cell>, node: MNode)
    requires InUse(t, p) && InUse(t, q) && p != q && HEADER <= SizeAt(size, q)
    requires |was| == |now| == size && Header(was, AddrAt(0, size, q), node)
    requires forall i | 0 <= i < size && !(AddrAt(0, size, p) <= i < AddrAt(0, size, p) + SizeAt(size, p)) ::
               now[i] == was[i]
    ensures Header(now, AddrAt(0, size, q), node)
  {
    hide InUse, AddrAt, SizeAt;
    BlocksDisjoint(t, 0, size, p, q);
  }

  lemma {:induction false} Shifted(base: nat, from: nat, size: nat, p: Path)
    ensures AddrAt(from + base, size, p) == AddrAt(from, size, p) + base
    decreases p
  {
    if p != [] {
      Shifted(base, if p[0] then from + size / 2 else from, size / 2, p[1..]);
    }
  }

  /** The bytes asked for, behind the header, lie inside the block and the region. */
  lemma PayloadInside(st: State, base: nat, size: nat, p: Path, n: nat)
    requires Good(st, size) && p in st.live && st.live[p] == Padded(n) && n <= TWO32 - 2 * LINE
    ensures AddrAt(base, size, p) + LINE + n <= AddrAt(base, size, p) + SizeAt(size, p) <= base + size
    ensures base <= AddrAt(base, size, p)
  {
    hide InUse, AddrAt, SizeAt, Padded;
    GoodMeans(st, size);
    PaddedHolds(n);
    BlockInside(base, size, p);
  }

  /** And they are apart from every other block in use. */
  lemma PayloadApart(st: State, base: nat, size: nat, p: Path, n: nat, q: Path)
    requires Good(st, size) && p in st.live && st.live[p] == Padded(n) && n <= TWO32 - 2 * LINE
    requires q in st.live && q != p
    ensures var a := AddrAt(base, size, p) + LINE;
            a + n <= AddrAt(base, size, q) || AddrAt(base, size, q) + SizeAt(size, q) <= a
  {
    hide InUse, AddrAt, SizeAt, Padded;
    GoodMeans(st, size);
    PayloadInside(st, base, size, p, n);
    BlocksDisjoint(st.tree, base, size, p, q);
  }

  class Pool {
    const heap: Allocator
    var memory: seq<Cell>
    /** What was asked for, header included, for each block in use. */
    ghost var live: map<Path, nat>

    constructor (base: nat, memory: seq<Cell>)
      ensures Valid() && fresh(heap) && this.memory == memory && Model() == START
      ensures heap.base == base && heap.size == |memory|
    {
      hide HasK;
      heap := new Allocator(base, |memory|);
      this.memory := memory;
      live := map[];
      new;
      StartGood(|memory|);
    }

    ghost function Model(): State
      reads this, heap
    {
      State(heap.tree, live)
    }

    /** The node of the block at a path. */
    ghost predicate NodeOf(p: Path, node: MNode)
      reads heap
    {
      FromPath(p) in heap.nodes && heap.nodes[FromPath(p)] == node
    }

    ghost predicate HeaderOk(p: Path)
      reads this, heap
    {
      FromPath(p) in heap.nodes && Header(memory, AddrAt(0, heap.size, p), heap.nodes[FromPath(p)])
    }

    ghost predicate Valid()
      reads this, heap, heap.nodes.Values
    {
      && heap.Linked() && |memory| == heap.size
      && Good(Model(), heap.size)
      && (forall p | p in live :: LINE <= live[p] && HeaderOk(p))
    }

    /** Ask for n bytes: the address behind the header of a block with room for both, or
        nothing. */
    method MemAlloc(n: nat) returns (addr: Option<nat>, ghost p: Path)
      requires Valid() && n < TWO32 && (Padded(n) > 0 || Full(heap.tree))
      modifies this, heap`tree, heap`nodes, heap.nodes.Values
      ensures Valid() && Model() == Step(old(Model()), heap.size, Get(Padded(n)))
      ensures addr == None <==> !Room(old(heap.tree), heap.size, Padded(n))
      ensures addr == None ==> Model() == old(Model()) && memory == old(memory)
      ensures addr.Some? ==>
                && p !in old(live) && live == old(live)[p := Padded(n)]
                && addr.value == AddrAt(heap.base, heap.size, p) + LINE
    {
      hide HasK, SubK, ReplaceK, SizeK, AddrK, Right, Distinct, ToPath, FromPath, Merged, Snap, InUse, AddrAt, SizeAt,
           Alloc, Padded, Room, Good, Header;
      ghost var st := Model();
      var req := Padded(n);
      GoodMeans(st, heap.size);
      AtTop(st.tree, st.tree, heap.size);
      heap.At(Top);
      ghost var a := Alloc(st.tree, heap.size, req);
      AtTop(st.tree, a.tree, heap.size);
      AllocWorks(st.tree, heap.size, req);
      StepGood(st, heap.size, Get(req));
      var node, key := heap.AllocAt(heap.root, Top, req);
      p := a.path;
      if node == null {
        addr := None;
      } else {
        assert [] + p == p;
        SamePlace(heap.tree, heap.base, heap.size, p, key);
        heap.At(key);
        PaddedHolds(n);
        AllocAddsOne(st.tree, heap.size, req, p);
        WriteHeader(node, p, req);
        addr := Some(node.ptr + LINE);
      }
    }

    /** Put the header in front of a block just found. */
    method WriteHeader(node: MNode, ghost p: Path, ghost req: nat)
      requires heap.Linked() && |memory| == heap.size && p !in live && req >= LINE
      requires Good(State(heap.tree, live[p := req]), heap.size)
      requires NodeOf(p, node) && node.ptr == AddrAt(heap.base, heap.size, p)
      requires forall q | q in live :: LINE <= live[q] && HeaderOk(q)
      modifies this
      ensures Valid() && live == old(live)[p := req]
    {
      hide HasK, SubK, SizeK, AddrK, Right, Distinct, FromPath, Merged, Snap, InUse, AddrAt, SizeAt, Good, Header;
      ghost var was := memory;
      BlockInside(0, heap.size, p);
      Shifted(heap.base, 0, heap.size, p);
      live := live[p := req];
      GoodMeans(Model(), heap.size);
      memory := WithHeader(memory, node.ptr - heap.base, node);
      forall q | q in live
        ensures HeaderOk(q)
      {
        if q != p {
          OtherHeader(heap.tree, heap.size, p, q, was, memory, heap.nodes[FromPath(q)]);
        }
      }
    }

    /** Give back the block behind whose header an address lies; the header leads to its
        node. */
    method MemFree(addr: nat, ghost p: Path)
      requires Valid() && p in live && addr == AddrAt(heap.base, heap.size, p) + LINE
      modifies this, heap`tree, heap`nodes, heap.nodes.Values
      ensures Valid() && Model() == Step(old(Model()), heap.size, Put(p)) && memory == old(memory)
    {
      hide HasK, SubK, ReplaceK, SizeK, AddrK, Right, Distinct, ToPath, FromPath, Merged, Snap, InUse, AddrAt, SizeAt,
           Good, Release, ReleaseK;
      ghost var st, ns := Model(), heap.nodes;
      GoodMeans(st, heap.size);
      Shifted(heap.base, 0, heap.size, p);
      ghost var k := FromPath(p);
      SamePlace(heap.tree, heap.base, heap.size, p, k);
      StepGood(st, heap.size, Put(p));
      assert HeaderOk(p);
      var header := memory[addr - LINE - heap.base];
      assert header == Part(ns[k], 0);
      heap.FreeNode(header.of, k);
      live := live - {p};
      GoodMeans(Model(), heap.size);
      forall q | q in live
        ensures HeaderOk(q)
      {
        SamePlace(heap.tree, heap.base, heap.size, q, FromPath(q));
      }
    }

    /** A client writes anything it likes, within what it asked for. */
    method ClientWrite(addr: nat, cell: Cell, ghost p: Path)
      requires Valid() && p in live
      requires AddrAt(heap.base, heap.size, p) + LINE <= addr < AddrAt(heap.base, heap.size, p) + live[p]
      modifies this`memory
      ensures Valid() && |memory| == |old(memory)|
      ensures forall i | 0 <= i < |memory| :: memory[i] == if heap.base + i == addr then cell else old(memory)[i]
    {
      hide HasK, SubK, SizeK, AddrK, Right, Distinct, FromPath, Merged, Snap, InUse, AddrAt, SizeAt, Good;
      ghost var was := memory;
      GoodMeans(Model(), heap.size);
      Shifted(heap.base, 0, heap.size, p);
      BlockInside(0, heap.size, p);
      memory := memory[addr - heap.base := cell];
      forall q | q in live
        ensures HeaderOk(q)
      {
        if q != p {
          OtherHeader(heap.tree, heap.size, p, q, was, memory, heap.nodes[FromPath(q)]);
        }
      }
    }
  }

  lemma GoodMeans(st: State, size: nat)
    requires Good(st, size)
    ensures Merged(st.tree)
    ensures forall p | p in st.live :: InUse(st.tree, p) && st.live[p] <= SizeAt(size, p)
    ensures forall p | p in st.live :: HasNode(st.tree, p) && Sub(st.tree, p) == Leaf(true)
    ensures forall p | InUse(st.tree, p) :: p in st.live
  {
  }

  function WithHeader(memory: seq<Cell>, off: int, node: MNode): (r: seq<Cell>)
    requires 0 <= off && off + HEADER <= |memory|
    ensures |r| == |memory| && Header(r, off, node)
    ensures forall i | 0 <= i < |r| && !(off <= i < off + HEADER) :: r[i] == memory[i]
  {
    memory[..off] + seq(HEADER, (i: nat) => Part(node, i)) + memory[off + HEADER..]
  }
}
