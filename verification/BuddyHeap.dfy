/** The buddy allocator as the program keeps it: nodes with child and parent links,
    created, flagged and released in place. */
module BuddyHeap {
  import opened Buddy
  import opened BuddyPaths

  class MNode {
    var first: MNode?
    var second: MNode?
    var taken: bool
    const parent: MNode?
    const index: bool
    const size: nat
    const ptr: nat

    constructor (parent: MNode?, ptr: nat, size: nat, index: bool)
      ensures first == null && second == null && !taken
      ensures this.parent == parent && this.ptr == ptr && this.size == size && this.index == index
    {
      first, second, taken := null, null, false;
      this.parent, this.ptr, this.size, this.index := parent, ptr, size, index;
    }
  }

  /** What a node holds at some moment. */
  datatype Fields = Fields(first: MNode?, second: MNode?, taken: bool, parent: MNode?, index: bool, size: nat, ptr: nat)

  ghost function Snap(n: MNode): Fields
    reads n
  {
    Fields(n.first, n.second, n.taken, n.parent, n.index, n.size, n.ptr)
  }

  ghost function Look(nodes: map<Key, MNode>, k: Key): MNode? {
    if k in nodes then nodes[k] else null
  }

  /** The node at place k of a tree, in a region, should hold this. */
  ghost function Right(t: Tree, nodes: map<Key, MNode>, base: nat, size: nat, k: Key): Fields
    requires HasK(t, k)
  {
    Fields(Look(nodes, Half(k, false)), Look(nodes, Half(k, true)), SubK(t, k).used,
           if k.Half? then Look(nodes, k.of) else null, k.Half? && k.second, SizeK(size, k), AddrK(base, size, k))
  }

  /** No node is at two places. */
  ghost predicate Distinct(nodes: map<Key, MNode>) {
    forall j, k | j in nodes && k in nodes && nodes[j] == nodes[k] :: j == k
  }

  lemma TwoMore(nodes: map<Key, MNode>, j: Key, a: MNode, k: Key, b: MNode)
    requires Distinct(nodes) && j !in nodes && k !in nodes && j != k && a != b
    requires forall i | i in nodes :: nodes[i] != a && nodes[i] != b
    ensures Distinct(nodes[j := a][k := b])
  {
  }

  /** Look for a block in the first half of a fork, then in the second. */
  ghost function AllocHalves(s: Tree, size: nat, req: nat): Answer
    requires req > 0 || (s.Fork? ==> Full(s.left) && Full(s.right))
  {
    if s.Leaf? then Answer(s, false, [])
    else
      var a := Alloc(s.left, size / 2, req);
      if a.found then Answer(s.(left := a.tree), true, [false] + a.path)
      else
        var b := Alloc(s.right, size / 2, req);
        Answer(s.(left := a.tree, right := b.tree), b.found, if b.found then [true] + b.path else [])
  }

  lemma AllocDescends(t: Tree, size: nat, req: nat)
    requires req <= size / 2 && (req > 0 || Full(t))
    ensures var h := AllocHalves(if t.used then t else Fork(false, FREE, FREE), size, req);
            Alloc(t, size, req) == h.(tree := if h.found then h.tree.(used := true) else h.tree)
  {
  }

  class Allocator {
    const base: nat
    const size: nat
    const root: MNode
    ghost var tree: Tree
    ghost var nodes: map<Key, MNode>

    constructor (base: nat, size: nat)
      ensures Linked() && tree == FREE
      ensures this.base == base && this.size == size && fresh(root)
    {
      this.base, this.size := base, size;
      var r := new MNode(null, base, size, false);
      root := r;
      tree, nodes := FREE, map[Top := r];
      new;
      HalfK(base, size, Top, false);
      forall k
        ensures HasK(FREE, k) <==> k == Top
      {
        if k.Half? {
          HasHalf(FREE, k.of, k.second);
        } else {
          HasHalf(FREE, k, false);
        }
      }
    }

    ghost predicate Linked()
      reads this, nodes.Values
    {
      && Top in nodes && nodes[Top] == root
      && (forall k :: k in nodes <==> HasK(tree, k))
      && (forall k | k in nodes :: Snap(nodes[k]) == Right(tree, nodes, base, size, k))
      && Distinct(nodes)
    }

    /** Set or clear the flag of one node. */
    method SetFlag(node: MNode, ghost k: Key, flag: bool)
      requires Linked() && k in nodes && node == nodes[k]
      modifies node`taken, this`tree
      ensures Linked() && tree == ReplaceK(old(tree), k, SubK(old(tree), k).(used := flag))
    {
      hide HasK, SubK, ReplaceK, SizeK, AddrK, Look;
      ghost var t := tree;
      node.taken := flag;
      tree := ReplaceK(t, k, SubK(t, k).(used := flag));
      forall j
        ensures HasK(tree, j) <==> HasK(t, j)
        ensures HasK(tree, j) ==> SubK(tree, j).used == if j == k then flag else SubK(t, j).used
      {
        FlagK(t, k, flag, j);
      }
    }

    method NewHalves(node: MNode) returns (a: MNode, b: MNode)
      ensures fresh(a) && fresh(b) && a != b
      ensures Snap(a) == Fields(null, null, false, node, false, node.size / 2, node.ptr)
      ensures Snap(b) == Fields(null, null, false, node, true, node.size / 2, node.ptr + node.size / 2)
    {
      var half := node.size / 2;
      a := new MNode(node, node.ptr, half, false);
      b := new MNode(node, node.ptr + half, half, true);
    }

    /** Split a block: two free halves below it. */
    method Split(node: MNode, ghost k: Key)
      requires Linked() && k in nodes && node == nodes[k] && SubK(tree, k) == FREE
      modifies node, this`tree, this`nodes
      ensures Linked() && tree == ReplaceK(old(tree), k, Fork(false, FREE, FREE))
      ensures node.first != null && node.second != null && fresh(node.first) && fresh(node.second)
      ensures nodes == old(nodes)[Half(k, false) := node.first][Half(k, true) := node.second]
      ensures Half(k, false) !in old(nodes) && Half(k, true) !in old(nodes)
    {
      hide HasK, SubK, ReplaceK, SizeK, AddrK, Look, Right, Distinct;
      ghost var t, ns := tree, nodes;
      var a, b := NewHalves(node);
      node.first, node.second := a, b;
      nodes := nodes[Half(k, false) := a][Half(k, true) := b];
      tree := ReplaceK(t, k, Fork(false, FREE, FREE));
      forall j
        ensures HasK(tree, j) <==> HasK(t, j) || j == Half(k, false) || j == Half(k, true)
      {
        SplitK(t, k, false, j);
      }
      SplitK(t, k, false, k);
      SplitHere(t, ns, base, size, k, false, a, b);
      forall j | j in ns && j != k
        ensures Snap(ns[j]) == Right(tree, nodes, base, size, j)
      {
        Elsewhere(ns, j, k);
        SplitElsewhere(t, ns, base, size, k, false, a, b, j);
      }
      TwoMore(ns, Half(k, false), a, Half(k, true), b);
      assert Snap(node) == Right(tree, nodes, base, size, k);
      assert Snap(a) == Right(tree, nodes, base, size, Half(k, false));
      assert Snap(b) == Right(tree, nodes, base, size, Half(k, true));
      hide Snap;
    }

    lemma At(k: Key)
      requires Linked() && k in nodes
      ensures nodes[k].taken == SubK(tree, k).used
      ensures nodes[k].size == SizeK(size, k) && nodes[k].ptr == AddrK(base, size, k)
    {
      assert Snap(nodes[k]) == Right(tree, nodes, base, size, k);
    }

    /** Unlink a node from the one above it. */
    method Unlink(node: MNode)
      modifies node.parent
      ensures var p := node.parent;
              p != null ==>
                Snap(p) == if node.index then old(Snap(p)).(second := null) else old(Snap(p)).(first := null)
    {
      var p := node.parent;
      if p != null {
        if node.index {
          p.second := null;
        } else {
          p.first := null;
        }
      }
    }

    /** Release the two free halves of a block. */
    method Join(parent: MNode, ghost k: Key, node: MNode, buddy: MNode)
      requires Linked() && k in nodes && parent == nodes[k]
      requires SubK(tree, k).Fork? && SubK(tree, k).left == FREE && SubK(tree, k).right == FREE
      requires node.parent == parent && buddy.parent == parent && node.index != buddy.index
      modifies parent, this`tree, this`nodes
      ensures Linked() && tree == ReplaceK(old(tree), k, Leaf(SubK(old(tree), k).used))
      ensures nodes == old(nodes) - {Half(k, false), Half(k, true)}
    {
      hide HasK, SubK, ReplaceK, SizeK, AddrK, Look, Right, Distinct;
      ghost var t, ns := tree, nodes;
      Joined(t, ns, base, size, k);
      Unlink(buddy);
      Unlink(node);
      nodes := nodes - {Half(k, false), Half(k, true)};
      tree := ReplaceK(t, k, Leaf(SubK(t, k).used));
      forall j | j in nodes && j != k
        ensures Snap(nodes[j]) == Right(tree, nodes, base, size, j)
      {
        Elsewhere(ns, j, k);
      }
      Fewer(ns, {Half(k, false), Half(k, true)});
    }

    /** A node has children exactly if it is a fork, each at its place. */
    lemma Child(k: Key, b: bool)
      requires Linked() && k in nodes
      ensures var c := if b then nodes[k].second else nodes[k].first;
              && (c != null <==> SubK(tree, k).Fork?)
              && (c != null ==>
                    && Half(k, b) in nodes && c == nodes[Half(k, b)] && c.size == nodes[k].size / 2
                    && SubK(tree, Half(k, b)) == if b then SubK(tree, k).right else SubK(tree, k).left)
    {
      hide HasK, SubK, SizeK, AddrK, Distinct;
      assert Snap(nodes[k]) == Right(tree, nodes, base, size, k);
      HasHalf(tree, k, b);
      HalfK(base, size, k, b);
      if Half(k, b) in nodes {
        assert Snap(nodes[Half(k, b)]) == Right(tree, nodes, base, size, Half(k, b));
      }
    }

    /** Nodes that were there stay; others are new. */
    twostate predicate Grown()
      reads this
    {
      && (forall j | j in old(nodes) :: j in nodes && nodes[j] == old(nodes)[j])
      && (forall j | j in nodes && j !in old(nodes) :: fresh(nodes[j]))
    }

    /** Look in the two halves of a block in turn. */
    method AllocBelow(node: MNode, ghost k: Key, req: nat) returns (ret: MNode?, ghost key: Key)
      requires Linked() && k in nodes && node == nodes[k] && node.size / 2 >= req
      requires SubK(tree, k).Fork? ==> Merged(SubK(tree, k).left) && Merged(SubK(tree, k).right)
      requires req > 0 || (SubK(tree, k).Fork? ==> Full(SubK(tree, k).left) && Full(SubK(tree, k).right))
      modifies this`tree, this`nodes, nodes.Values
      ensures Linked() && Grown()
      ensures var a := AllocHalves(SubK(old(tree), k), node.size, req);
              && tree == ReplaceK(old(tree), k, a.tree)
              && (ret != null <==> a.found)
              && (ret != null ==> key in nodes && ret == nodes[key] && ToPath(key) == ToPath(k) + a.path)
      decreases if req > 0 then node.size else Height(SubK(tree, k)) + 1, 0
    {
      hide HasK, SubK, ReplaceK, SizeK, AddrK, Right, Distinct, ToPath, Merged, Snap, Full;
      ghost var t, s := tree, SubK(tree, k);
      Child(k, false);
      ReplaceK2(t, k, s, s);
      ret, key := AllocAt(node.first, Half(k, false), req);
      if s.Fork? {
        ghost var a := Alloc(s.left, node.size / 2, req);
        InHalf(t, k, s, false, a.tree);
        ReplaceK2(t, k, s.(left := a.tree), s);
        PathStep(k, false, a.path);
      }
      if ret == null {
        Child(k, true);
        ret, key := AllocAt(node.second, Half(k, true), req);
        if s.Fork? {
          ghost var a, b := Alloc(s.left, node.size / 2, req), Alloc(s.right, node.size / 2, req);
          InHalf(t, k, s.(left := a.tree), true, b.tree);
          PathStep(k, true, b.path);
        }
      }
    }

    /** A block that is not in use is split before its halves are looked at. */
    method OpenUp(node: MNode, ghost k: Key) returns (ghost u: Tree)
      requires Linked() && k in nodes && node == nodes[k] && Merged(SubK(tree, k))
      modifies this`tree, this`nodes, node
      ensures Linked() && Grown()
      ensures u == (if SubK(old(tree), k).used then SubK(old(tree), k) else Fork(false, FREE, FREE))
      ensures tree == ReplaceK(old(tree), k, u) && HasK(tree, k) && SubK(tree, k) == u
      ensures u.Fork? ==> Merged(u.left) && Merged(u.right)
    {
      hide HasK, SubK, ReplaceK, SizeK, AddrK, Right, Distinct, ToPath, Snap;
      At(k);
      u := SubK(tree, k);
      ReplaceK2(tree, k, u, u);
      if !node.taken {
        MergedUsed(u, []);
        u := Fork(false, FREE, FREE);
        ReplaceK2(tree, k, u, u);
        Split(node, k);
      }
    }

    method AllocAt(node: MNode?, ghost k: Key, req: nat) returns (ret: MNode?, ghost key: Key)
      requires Linked()
      requires node != null ==> k in nodes && node == nodes[k] && Merged(SubK(tree, k)) && (req > 0 || Full(SubK(tree, k)))
      modifies this`tree, this`nodes, nodes.Values
      ensures Linked() && Grown()
      ensures node == null ==> ret == null && tree == old(tree)
      ensures node != null ==>
                var a := Alloc(SubK(old(tree), k), node.size, req);
                && tree == ReplaceK(old(tree), k, a.tree)
                && (ret != null <==> a.found)
                && (ret != null ==> key in nodes && ret == nodes[key] && ToPath(key) == ToPath(k) + a.path)
      decreases if node == null then 0 else if req > 0 then node.size else Height(SubK(tree, k)) + 1, 1
    {
      hide HasK, SubK, ReplaceK, SizeK, AddrK, Right, Distinct, ToPath, Merged, Snap, Look, AllocHalves;
      ret, key := null, k;
      if node == null {
        return;
      }
      ghost var t, s := tree, SubK(tree, k);
      At(k);
      PathStep(k, false, []);
      if node.size / 2 < req {
        ReplaceK2(t, k, s, s);
        if !node.taken && node.size >= req {
          ret := node;
        }
      } else {
        AllocDescends(s, node.size, req);
        ghost var u := OpenUp(node, k);
        ghost var h := AllocHalves(u, node.size, req);
        ret, key := AllocBelow(node, k, req);
        assert Grown();
        ReplaceK2(t, k, u, h.tree);
        ReplaceK2(t, k, h.tree, h.tree.(used := true));
      }
      if ret != null {
        SetFlag(node, k, true);
      }
    }

    /** The node above, and the other half, by place. */
    lemma Up(k: Key)
      requires Linked() && k in nodes
      ensures nodes[k].parent == null <==> k == Top
      ensures k.Half? ==>
                && k.of in nodes && nodes[k].parent == nodes[k.of] && nodes[k].index == k.second
                && Half(k.of, !k.second) in nodes
                && nodes[Half(k.of, !k.second)] == (if k.second then nodes[k.of].first else nodes[k.of].second)
                && nodes[Half(k.of, !k.second)].taken == SubK(tree, Half(k.of, !k.second)).used
                && nodes[Half(k.of, !k.second)].parent == nodes[k.of] && nodes[Half(k.of, !k.second)].index != k.second
    {
      hide HasK, SubK, SizeK, AddrK, Distinct;
      assert Snap(nodes[k]) == Right(tree, nodes, base, size, k);
      if k.Half? {
        HasHalf(tree, k.of, k.second);
        HasHalf(tree, k.of, !k.second);
        assert Snap(nodes[k.of]) == Right(tree, nodes, base, size, k.of);
        assert Snap(nodes[Half(k.of, !k.second)]) == Right(tree, nodes, base, size, Half(k.of, !k.second));
      }
    }

    method FreeNode(node: MNode, ghost k: Key)
      requires Linked() && k in nodes && node == nodes[k] && Merged(tree) && SubK(tree, k) == Leaf(true)
      modifies this`tree, this`nodes, nodes.Values
      ensures Linked() && tree == ReleaseK(old(tree), k)
      ensures forall j | j in nodes :: j in old(nodes) && nodes[j] == old(nodes)[j]
      decreases k
    {
      hide HasK, SubK, ReplaceK, SizeK, AddrK, Right, Distinct, ToPath, Merged, Snap, ReleaseK, Look;
      ghost var t := tree;
      AtTop(t, FREE, size);
      SetFlag(node, k, false);
      Up(k);
      var parent := node.parent;
      if parent == null {
        return;
      }
      ReleaseStep(t, k.of, k.second);
      var buddy := if node.index then parent.first else parent.second;
      if buddy.taken {
        return;
      }
      Join(parent, k.of, node, buddy);
      FreeNode(parent, k.of);
    }
  }

  /** What every node should hold once two free halves have become one block again. */
  lemma Joined(t: Tree, nodes: map<Key, MNode>, base: nat, size: nat, k: Key)
    requires HasK(t, k) && SubK(t, k).Fork? && SubK(t, k).left == FREE && SubK(t, k).right == FREE
    requires forall i :: i in nodes <==> HasK(t, i)
    ensures var u, ms := ReplaceK(t, k, Leaf(SubK(t, k).used)), nodes - {Half(k, false), Half(k, true)};
            && k in ms && Top in ms && (forall j :: j in ms <==> HasK(u, j))
            && Right(u, ms, base, size, k) == Right(t, nodes, base, size, k).(first := null, second := null)
            && forall j | j in ms && j != k :: Right(u, ms, base, size, j) == Right(t, nodes, base, size, j)
  {
    hide HasK, SubK, ReplaceK, SizeK, AddrK, Look, Right;
    var flag := SubK(t, k).used;
    var u, ms := ReplaceK(t, k, Leaf(flag)), nodes - {Half(k, false), Half(k, true)};
    ReplaceK2(t, k, Leaf(flag), Fork(flag, FREE, FREE));
    ReplaceK2(t, k, SubK(t, k), FREE);
    HasHalf(t, k, false);
    HasHalf(t, k, true);
    forall j
      ensures HasK(t, j) <==> HasK(u, j) || j == Half(k, false) || j == Half(k, true)
      ensures HasK(u, j) ==> j != Half(k, false) && j != Half(k, true)
    {
      SplitK(u, k, flag, j);
    }
    var a, b := nodes[Half(k, false)], nodes[Half(k, true)];
    assert nodes == ms[Half(k, false) := a][Half(k, true) := b];
    SplitHere(u, ms, base, size, k, flag, a, b);
    forall j | j in ms && j != k
      ensures Right(u, ms, base, size, j) == Right(t, nodes, base, size, j)
    {
      SplitElsewhere(u, ms, base, size, k, flag, a, b, j);
    }
  }

  lemma Fewer(nodes: map<Key, MNode>, gone: set<Key>)
    requires Distinct(nodes)
    ensures Distinct(nodes - gone)
  {
  }

  lemma Elsewhere(nodes: map<Key, MNode>, j: Key, k: Key)
    requires Distinct(nodes) && j in nodes && k in nodes && j != k
    ensures nodes[j] != nodes[k]
  {
  }

  /** A split changes nothing for the other nodes. */
  lemma SplitElsewhere(t: Tree, nodes: map<Key, MNode>, base: nat, size: nat, k: Key, flag: bool, a: MNode, b: MNode,
                       j: Key)
    requires HasK(t, k) && SubK(t, k).Leaf? && HasK(t, j) && j != k
    requires forall i :: i in nodes <==> HasK(t, i)
    ensures var u, ms := ReplaceK(t, k, Fork(flag, FREE, FREE)), nodes[Half(k, false) := a][Half(k, true) := b];
            HasK(u, j) && Right(u, ms, base, size, j) == Right(t, nodes, base, size, j)
  {
    hide HasK, SubK, ReplaceK, SizeK, AddrK;
    SplitK(t, k, flag, j);
    if j.Half? {
      HasHalf(t, j.of, j.second);
    }
  }

  /** The block that is split, and its halves. */
  lemma SplitHere(t: Tree, nodes: map<Key, MNode>, base: nat, size: nat, k: Key, flag: bool, a: MNode, b: MNode)
    requires HasK(t, k) && SubK(t, k).Leaf?
    requires forall i :: i in nodes <==> HasK(t, i)
    ensures var u, ms, was := ReplaceK(t, k, Fork(flag, FREE, FREE)), nodes[Half(k, false) := a][Half(k, true) := b],
                              Right(t, nodes, base, size, k);
            && HasK(u, k) && HasK(u, Half(k, false)) && HasK(u, Half(k, true))
            && was.first == null && was.second == null && was.taken == SubK(t, k).used
            && Right(u, ms, base, size, k) == was.(first := a, second := b, taken := flag)
            && Right(u, ms, base, size, Half(k, false))
               == Fields(null, null, false, nodes[k], false, was.size / 2, was.ptr)
            && Right(u, ms, base, size, Half(k, true))
               == Fields(null, null, false, nodes[k], true, was.size / 2, was.ptr + was.size / 2)
  {
    hide HasK, SubK, ReplaceK, SizeK, AddrK;
    SplitK(t, k, flag, k);
    SplitK(t, k, flag, Half(k, false));
    SplitK(t, k, flag, Half(k, true));
    HalfK(base, size, k, false);
    HalfK(base, size, k, true);
    HasHalf(t, Half(k, false), false);
    HasHalf(t, Half(k, false), true);
    HasHalf(t, Half(k, true), false);
    HasHalf(t, Half(k, true), true);
    if k.Half? {
      HasHalf(t, k.of, k.second);
    }
  }
}
