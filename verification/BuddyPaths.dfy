/** The tree seen node by node: what changing one place does to every other, and the
    bottom-up form of giving a block back. */
module BuddyPaths {
  import opened Buddy

  ghost function Replace(t: Tree, p: Path, s: Tree): Tree
    requires HasNode(t, p)
  {
    if p == [] then s
    else if p[0] then t.(right := Replace(t.right, p[1..], s))
    else t.(left := Replace(t.left, p[1..], s))
  }

  ghost function Flag(t: Tree, p: Path): bool
    requires HasNode(t, p)
  {
    Sub(t, p).used
  }

  lemma PrefixTail(p: Path, q: Path)
    requires p != [] && q != []
    ensures p <= q <==> p[0] == q[0] && p[1..] <= q[1..]
    ensures p <= q ==> q[1..][|p[1..]|..] == q[|p|..]
  {
    assert p == [p[0]] + p[1..] && q == [q[0]] + q[1..];
    if p[0] == q[0] && p[1..] <= q[1..] {
      assert q[..|p|] == [q[0]] + q[1..][..|p| - 1] == p;
    }
    if p <= q {
      assert q[..|p|] == p;
      assert q[1..][..|p| - 1] == p[1..];
    }
  }

  /** After replacing the part at p, a node is there, and flagged, as in the new part
      if it is at or below p, and as before otherwise. */
  lemma {:induction false} ReplaceAt(t: Tree, p: Path, s: Tree, q: Path)
    requires HasNode(t, p)
    ensures HasNode(Replace(t, p, s), q) <==> if p <= q then HasNode(s, q[|p|..]) else HasNode(t, q)
    ensures HasNode(Replace(t, p, s), q) ==>
              Flag(Replace(t, p, s), q) == if p <= q then Flag(s, q[|p|..]) else Flag(t, q)
    ensures HasNode(Replace(t, p, s), q) && p <= q ==> Sub(Replace(t, p, s), q) == Sub(s, q[|p|..])
    decreases p
  {
    if p == [] {
      assert q[0..] == q;
    } else if q != [] {
      PrefixTail(p, q);
      ReplaceAt(if p[0] then t.right else t.left, p[1..], s, q[1..]);
    }
  }

  lemma {:induction false} ReplaceSelf(t: Tree, p: Path)
    requires HasNode(t, p)
    ensures Replace(t, p, Sub(t, p)) == t
  {
    if p != [] {
      ReplaceSelf(if p[0] then t.right else t.left, p[1..]);
    }
  }

  lemma {:induction false} ReplaceTwice(t: Tree, p: Path, s: Tree, u: Tree)
    requires HasNode(t, p)
    ensures HasNode(Replace(t, p, s), p) && Replace(Replace(t, p, s), p, u) == Replace(t, p, u)
  {
    if p != [] {
      ReplaceTwice(if p[0] then t.right else t.left, p[1..], s, u);
    }
  }

  /** Replacing a half of the part at p. */
  lemma {:induction false} ReplaceHalf(t: Tree, p: Path, b: bool, s: Tree)
    requires HasNode(t, p + [b])
    ensures HasNode(t, p) && Sub(t, p).Fork?
    ensures Sub(t, p + [b]) == if b then Sub(t, p).right else Sub(t, p).left
    ensures Replace(t, p + [b], s) == Replace(t, p, if b then Sub(t, p).(right := s) else Sub(t, p).(left := s))
    decreases p
  {
    if p == [] {
      assert ([] + [b])[0] == b && ([] + [b])[1..] == [];
    } else {
      assert (p + [b])[1..] == p[1..] + [b] && (p + [b])[0] == p[0];
      ReplaceHalf(if p[0] then t.right else t.left, p[1..], b, s);
    }
  }

  lemma {:induction false} HalvesExist(t: Tree, p: Path)
    requires HasNode(t, p) && Sub(t, p).Fork?
    ensures HasNode(t, p + [false]) && HasNode(t, p + [true])
  {
    if p == [] {
      assert ([] + [false])[1..] == [] && ([] + [true])[1..] == [];
    } else {
      assert (p + [false])[1..] == p[1..] + [false] && (p + [true])[1..] == p[1..] + [true];
      HalvesExist(if p[0] then t.right else t.left, p[1..]);
    }
  }

  /** Giving a block back from the bottom up: if the other half is in use, only this
      block changes; otherwise the two become one block, which is given back in turn. */
  lemma {:induction false} ReleaseUp(t: Tree, p: Path, b: bool)
    requires HasNode(t, p + [b]) && HasNode(t, p) && HasNode(t, p + [!b])
    ensures Flag(t, p + [!b]) ==> Release(t, p + [b]) == Replace(t, p + [b], FREE)
    ensures !Flag(t, p + [!b]) ==>
              && HasNode(Replace(t, p, Leaf(true)), p)
              && Release(t, p + [b]) == Release(Replace(t, p, Leaf(true)), p)
    decreases p
  {
    if p == [] {
      assert p + [b] == [b] && p + [!b] == [!b] && [b][1..] == [] && [!b][1..] == [];
      assert Sub(t, [!b]) == if b then t.left else t.right;
      assert Release(if b then t.right else t.left, []) == FREE;
      assert Replace(t, [b], FREE) == if b then t.(right := FREE) else t.(left := FREE);
    } else {
      assert (p + [b])[1..] == p[1..] + [b] && (p + [!b])[1..] == p[1..] + [!b];
      var c := if p[0] then t.right else t.left;
      ReleaseUp(c, p[1..], b);
      ReplaceNotFree(c, p[1..] + [b]);
    }
  }

  lemma ReplaceNotFree(t: Tree, p: Path)
    requires HasNode(t, p) && p != []
    ensures Replace(t, p, FREE) != FREE
  {
  }

  lemma {:induction false} MergedAt(t: Tree, p: Path)
    requires Merged(t) && HasNode(t, p)
    ensures Merged(Sub(t, p))
  {
    if p != [] {
      MergedAt(if p[0] then t.right else t.left, p[1..]);
    }
  }

  lemma {:induction false} MergedReplace(t: Tree, p: Path, s: Tree)
    requires Merged(t) && HasNode(t, p) && Merged(s) && s.used
    ensures Merged(Replace(t, p, s)) && (Replace(t, p, s)).used
  {
    if p != [] {
      MergedReplace(if p[0] then t.right else t.left, p[1..], s);
    }
  }

  /** Sizes and addresses of the halves of a block. */
  lemma {:induction false} HalfAt(base: nat, size: nat, p: Path, b: bool)
    ensures SizeAt(size, p + [b]) == SizeAt(size, p) / 2
    ensures AddrAt(base, size, p + [b]) == AddrAt(base, size, p) + if b then SizeAt(size, p) / 2 else 0
    decreases p
  {
    if p == [] {
      assert ([] + [b])[1..] == [] && ([] + [b])[0] == b;
    } else {
      assert (p + [b])[1..] == p[1..] + [b] && (p + [b])[0] == p[0];
      HalfAt(if p[0] then base + size / 2 else base, size / 2, p[1..], b);
    }
  }

  // ----- places named from the bottom up

  /** The root, or a half of the block at another place. */
  datatype Key = Top | Half(of: Key, second: bool)

  ghost function ToPath(k: Key): Path {
    match k
    case Top => []
    case Half(j, b) => ToPath(j) + [b]
  }

  ghost function FromPath(p: Path): Key {
    if p == [] then Top else Half(FromPath(p[..|p| - 1]), p[|p| - 1])
  }

  lemma {:induction false} PathKey(p: Path)
    ensures ToPath(FromPath(p)) == p
  {
    if p != [] {
      PathKey(p[..|p| - 1]);
    }
  }

  lemma {:induction false} KeyPath(k: Key)
    ensures FromPath(ToPath(k)) == k
  {
    if k.Half? {
      KeyPath(k.of);
      assert (ToPath(k.of) + [k.second])[..|ToPath(k)| - 1] == ToPath(k.of);
    }
  }

  ghost predicate HasK(t: Tree, k: Key) {
    HasNode(t, ToPath(k))
  }

  ghost function SubK(t: Tree, k: Key): Tree
    requires HasK(t, k)
  {
    Sub(t, ToPath(k))
  }

  ghost function ReplaceK(t: Tree, k: Key, s: Tree): Tree
    requires HasK(t, k)
  {
    Replace(t, ToPath(k), s)
  }

  ghost function SizeK(size: nat, k: Key): nat {
    SizeAt(size, ToPath(k))
  }

  ghost function AddrK(base: nat, size: nat, k: Key): nat {
    AddrAt(base, size, ToPath(k))
  }

  /** A place exists exactly if the one above it is a fork. */
  lemma HasHalf(t: Tree, k: Key, b: bool)
    ensures HasK(t, Top)
    ensures HasK(t, Half(k, b)) <==> HasK(t, k) && SubK(t, k).Fork?
    ensures HasK(t, Half(k, b)) ==> SubK(t, Half(k, b)) == if b then SubK(t, k).right else SubK(t, k).left
  {
    var p := ToPath(k);
    if HasNode(t, p + [b]) {
      ReplaceHalf(t, p, b, FREE);
    } else if HasNode(t, p) && Sub(t, p).Fork? {
      HalvesExist(t, p);
    }
  }

  lemma HalfK(base: nat, size: nat, k: Key, b: bool)
    ensures SizeK(size, Top) == size && AddrK(base, size, Top) == base
    ensures SizeK(size, Half(k, b)) == SizeK(size, k) / 2
    ensures AddrK(base, size, Half(k, b)) == AddrK(base, size, k) + if b then SizeK(size, k) / 2 else 0
  {
    HalfAt(base, size, ToPath(k), b);
  }

  /** Changing the flag of one node changes nothing else. */
  lemma {:induction false} FlagK(t: Tree, k: Key, flag: bool, j: Key)
    requires HasK(t, k)
    ensures var u := ReplaceK(t, k, SubK(t, k).(used := flag));
            && (HasK(u, j) <==> HasK(t, j))
            && (HasK(u, j) ==> SubK(u, j).used == (if j == k then flag else SubK(t, j).used)
                               && SubK(u, j).Fork? == SubK(t, j).Fork?)
  {
    FlagOnly(t, ToPath(k), flag, ToPath(j));
    KeyPath(k);
    KeyPath(j);
  }

  lemma {:induction false} FlagOnly(t: Tree, p: Path, flag: bool, q: Path)
    requires HasNode(t, p)
    ensures var u := Replace(t, p, Sub(t, p).(used := flag));
            && (HasNode(u, q) <==> HasNode(t, q))
            && (HasNode(u, q) ==> Sub(u, q).used == (if q == p then flag else Sub(t, q).used)
                                  && Sub(u, q).Fork? == Sub(t, q).Fork?)
  {
    if p == [] {
    } else if q != [] {
      FlagOnly(if p[0] then t.right else t.left, p[1..], flag, q[1..]);
      assert p == [p[0]] + p[1..] && q == [q[0]] + q[1..];
    }
  }

  /** Splitting a leaf adds its two halves, both unflagged, and nothing else; the new
      fork is as flagged as it is told to be. */
  lemma SplitK(t: Tree, k: Key, flag: bool, j: Key)
    requires HasK(t, k) && SubK(t, k).Leaf?
    ensures var u := ReplaceK(t, k, Fork(flag, FREE, FREE));
            && (HasK(u, j) <==> HasK(t, j) || j == Half(k, false) || j == Half(k, true))
            && (HasK(u, j) ==>
                  SubK(u, j).used == if j == k then flag else if HasK(t, j) then SubK(t, j).used else false)
    ensures !HasK(t, Half(k, false)) && !HasK(t, Half(k, true))
  {
    HasHalf(t, k, false);
    HasHalf(t, k, true);
    KeyPath(j);
    KeyPath(k);
    KeyPath(Half(k, false));
    KeyPath(Half(k, true));
    SplitAt(t, ToPath(k), flag, ToPath(j));
  }

  lemma SplitAt(t: Tree, p: Path, flag: bool, q: Path)
    requires HasNode(t, p) && Sub(t, p).Leaf?
    ensures var u := Replace(t, p, Fork(flag, FREE, FREE));
            && (HasNode(u, q) <==> HasNode(t, q) || q == p + [false] || q == p + [true])
            && (HasNode(u, q) ==>
                  Sub(u, q).used == if q == p then flag else if HasNode(t, q) then Sub(t, q).used else false)
  {
    var s, was := Fork(flag, FREE, FREE), Sub(t, p);
    ReplaceAt(t, p, s, q);
    ReplaceSelf(t, p);
    ReplaceAt(t, p, was, q);
    if p <= q {
      var r := q[|p|..];
      assert q == p + r;
      if |r| == 1 {
        assert r == [r[0]] && r[1..] == [];
      } else if |r| > 1 {
        assert r[1..] != [];
      }
    }
  }

  lemma ReplaceK2(t: Tree, k: Key, s: Tree, u: Tree)
    requires HasK(t, k)
    ensures HasK(ReplaceK(t, k, s), k) && SubK(ReplaceK(t, k, s), k) == s
    ensures ReplaceK(ReplaceK(t, k, s), k, u) == ReplaceK(t, k, u)
    ensures ReplaceK(t, k, SubK(t, k)) == t
  {
    var p := ToPath(k);
    ReplaceTwice(t, p, s, u);
    ReplaceAt(t, p, s, p);
    ReplaceSelf(t, p);
    assert p[|p|..] == [];
  }

  /** Work in one half of a fork, seen from the fork. */
  lemma InHalf(t: Tree, k: Key, s: Tree, b: bool, x: Tree)
    requires HasK(t, k) && s.Fork?
    ensures var u := ReplaceK(t, k, s);
            && HasK(u, Half(k, b))
            && SubK(u, Half(k, b)) == (if b then s.right else s.left)
            && ReplaceK(u, Half(k, b), x) == ReplaceK(t, k, if b then s.(right := x) else s.(left := x))
  {
    var u := ReplaceK(t, k, s);
    ReplaceK2(t, k, s, if b then s.(right := x) else s.(left := x));
    HasHalf(u, k, b);
    ReplaceHalf(u, ToPath(k), b, x);
  }

  lemma PathStep(k: Key, b: bool, p: Path)
    ensures ToPath(Half(k, b)) + p == ToPath(k) + ([b] + p)
    ensures ToPath(k) + [] == ToPath(k)
  {
  }

  ghost function ReleaseK(t: Tree, k: Key): Tree
    requires HasK(t, k)
  {
    Release(t, ToPath(k))
  }

  lemma AtTop(t: Tree, s: Tree, size: nat)
    ensures HasK(t, Top) && SubK(t, Top) == t && ReplaceK(t, Top, s) == s
    ensures ReleaseK(t, Top) == FREE && SizeK(size, Top) == size && ToPath(Top) == []
  {
  }

  /** A path and its place name the same block. */
  lemma SamePlace(t: Tree, base: nat, size: nat, p: Path, k: Key)
    requires k == FromPath(p) || p == ToPath(k)
    ensures k == FromPath(p) && p == ToPath(k)
    ensures HasK(t, k) <==> HasNode(t, p)
    ensures HasK(t, k) ==> SubK(t, k) == Sub(t, p) && ReleaseK(t, k) == Release(t, p)
    ensures SizeK(size, k) == SizeAt(size, p) && AddrK(base, size, k) == AddrAt(base, size, p)
  {
    PathKey(p);
    KeyPath(k);
  }

  /** One step of giving back the block at a half: stop if the other half is flagged,
      otherwise the whole above becomes one block that is given back in turn. */
  lemma ReleaseStep(t: Tree, k: Key, b: bool)
    requires HasK(t, Half(k, b)) && Merged(t) && SubK(t, Half(k, b)) == Leaf(true)
    ensures HasK(t, k) && HasK(t, Half(k, !b)) && SubK(t, k).Fork?
    ensures var t1, other := ReplaceK(t, Half(k, b), FREE), SubK(t, Half(k, !b));
            && HasK(t1, k) && HasK(t1, Half(k, !b)) && SubK(t1, Half(k, !b)) == other
            && (other.used ==> ReleaseK(t, Half(k, b)) == t1)
            && (!other.used ==>
                  && SubK(t1, k) == Fork(true, FREE, FREE)
                  && ReplaceK(t1, k, Leaf(true)) == ReplaceK(t, k, Leaf(true))
                  && HasK(ReplaceK(t, k, Leaf(true)), k) && SubK(ReplaceK(t, k, Leaf(true)), k) == Leaf(true)
                  && Merged(ReplaceK(t, k, Leaf(true)))
                  && ReleaseK(t, Half(k, b)) == ReleaseK(ReplaceK(t, k, Leaf(true)), k))
  {
    HasHalf(t, k, b);
    HasHalf(t, k, !b);
    var s := SubK(t, k);
    ReplaceK2(t, k, s, s);
    InHalf(t, k, s, b, FREE);
    var s1 := if b then s.(right := FREE) else s.(left := FREE);
    ReplaceK2(t, k, s1, Leaf(true));
    ReplaceK2(t, k, Leaf(true), s);
    HasHalf(ReplaceK(t, k, s1), k, !b);
    ReleaseUp(t, ToPath(k), b);
    MergedAt(t, ToPath(k));
    MergedReplace(t, ToPath(k), Leaf(true));
  }
}
