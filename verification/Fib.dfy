/** The forwarding table as the program keeps it: table entries linked in memory and
    changed in place, reference-counted route records, and requests for memory that
    can fail. Each operation is proved against the functions on trie values. */
module Fib {
  import opened AddressBits
  import opened Arithmetic
  import opened Common
  import opened Routes
  import opened Trie
  import opened TrieLaws
  import opened TrieSteps

  /** A table entry: the list of routes that end here, and the next table. */
  class LpmNode {
    var head: seq<Route>
    var next: seq<LpmNode>
    ghost var view: Node          // the trie value this entry stands for
    ghost var repr: set<LpmNode>  // this entry and all below it

    constructor ()
      ensures Valid() && head == [] && next == [] && view == EMPTY && repr == {this}
    {
      head, next, view, repr := [], [], EMPTY, {this};
    }

    ghost predicate Valid()
      reads this, repr
      decreases repr
    {
      && this in repr
      && view.head == head && |view.next| == |next|
      && (forall i | 0 <= i < |next| ::
            && next[i] in repr && next[i].repr <= repr && this !in next[i].repr
            && next[i].view == view.next[i] && next[i].Valid())
      && (forall i, j | 0 <= i < j < |next| :: next[i].repr !! next[j].repr)
    }
  }

  /** A fresh table of empty entries. */
  method NewTable(size: nat) returns (t: seq<LpmNode>)
    ensures |t| == size
    ensures forall i | 0 <= i < size :: fresh(t[i]) && t[i].Valid() && t[i].view == EMPTY && t[i].repr == {t[i]}
    ensures forall i, j | 0 <= i < j < size :: t[i] != t[j]
  {
    t := [];
    while |t| < size
      invariant |t| <= size
      invariant forall i | 0 <= i < |t| :: fresh(t[i]) && t[i].Valid() && t[i].view == EMPTY && t[i].repr == {t[i]}
      invariant forall i, j | 0 <= i < j < |t| :: t[i] != t[j]
    {
      var n := new LpmNode();
      t := t + [n];
    }
  }

  /** The entry still has the same list, the same table below it and the same
      memory. */
  twostate predicate SameShape(parent: LpmNode)
    reads parent
  {
    parent.next == old(parent.next) && parent.repr == old(parent.repr) && parent.head == old(parent.head)
  }

  class Table {
    const words: nat              // 32-bit words in an address: 1 or 4
    var root: LpmNode             // its `next` is the table on the first 16 bits
    var ledger: Ledger            // reference counts and allocated records
    ghost var live: seq<Route>    // the routes added and not deleted, newest first

    ghost predicate Valid()
      reads this, root, root.repr
    {
      && words > 0 && !ledger.fault
      && root.Valid() && RepTable(root.view.next, 0, live)
      && Reach(live, 0, words) && Distinct(live)
      && ledger.records == (set r | r in live)
      && ledger.refs == Held(root.view.next)
    }

    constructor (words: nat)
      requires words > 0
      ensures Valid() && this.words == words && live == [] && fresh(root) && fresh(root.repr)
    {
      this.words := words;
      ledger, live := Ledger(multiset{}, {}, false), [];
      root := new LpmNode();
      new;
      LinkNewTable(root, 0);
      EmptyRep(root.view.next, 0);
      forall x: Route
        ensures Held(root.view.next)[x] == 0
      {
        HeldAbsent(root.view.next, 0, [], x, |root.view.next|);
      }
    }

    /** Hang a table of empty entries under an entry that has none. */
    method LinkNewTable(parent: LpmNode, off: nat)
      requires parent.Valid() && parent.next == []
      modifies parent
      ensures parent.Valid() && fresh(parent.repr - old(parent.repr)) && parent.head == old(parent.head)
      ensures parent.view == old(parent.view).(next := EmptyTable(Pow2(Stride(off))))
      ensures old(parent.repr) <= parent.repr
    {
      hide Pow2;
      var t := NewTable(Pow2(Stride(off)));
      parent.next := t;
      parent.view := parent.view.(next := EmptyTable(Pow2(Stride(off))));
      parent.repr := parent.repr + set n | n in t;
      forall i, j | 0 <= i < j < |t|
        ensures t[i].repr !! t[j].repr
      {
        assert t[i] != t[j];
      }
    }

    /** Writing the list of one entry leaves everything else as it was. */
    method SetHead(parent: LpmNode, j: nat, l: seq<Route>)
      requires parent.Valid() && j < |parent.next|
      modifies parent.next[j], parent`view
      ensures parent.Valid() && parent.view == WithHead(old(parent.view), j, l)
      ensures SameShape(parent)
    {
      var n := parent.next[j];
      n.head := l;
      n.view := n.view.(head := l);
      parent.view := WithHead(parent.view, j, l);
      forall i | 0 <= i < |n.next|
        ensures n.next[i].Valid() && n.next[i].view == n.view.next[i]
      {
        assert n !in n.next[i].repr && parent !in n.next[i].repr;
      }
    }

    /** Insert behind the last longer route, unless the route is already listed. */
    method EntryInsert(parent: LpmNode, j: nat, r: Route) returns (ok: bool)
      requires parent.Valid() && j < |parent.next| && Descending(parent.next[j].head)
      modifies parent.next[j], parent`view, this`ledger
      ensures parent.Valid() && SameShape(parent)
      ensures ok <==> NoMatch(old(parent.next[j].head), r.id, r.len)
      ensures ok ==> parent.view == WithHead(old(parent.view), j, Insert(old(parent.next[j].head), r))
                     && ledger == Pulls(old(ledger), r, 1)
      ensures !ok ==> parent.view == old(parent.view) && ledger == old(ledger)
    {
      hide LpmNode.Valid;
      var l := parent.next[j].head;
      var prior, i := -1, 0;
      while i < |l|
        invariant -1 <= prior < i <= |l|
        invariant forall k | 0 <= k < i :: !Identify(l[k], r.id, r.len)
        invariant forall k | 0 <= k <= prior :: l[k].len > r.len
        invariant forall k | prior < k < i :: l[k].len <= r.len
      {
        if Identify(l[i], r.id, r.len) {
          return false;
        }
        if l[i].len > r.len {
          prior := i;
        }
        i := i + 1;
      }
      InsertAt(l, r, prior + 1);
      ledger := ledger.(refs := ledger.refs[r := ledger.refs[r] + 1]);
      SetHead(parent, j, l[..prior + 1] + [r] + l[prior + 1..]);
      ok := true;
    }

    /** The expansion loop: one copy per entry of the run, until a request for
        memory fails or the route turns out to be listed already. */
    method PlaceRun(parent: LpmNode, off: nat, r: Route, grant: nat, ghost rs: seq<Route>)
      returns (ok: bool, placed: nat)
      requires parent.Valid() && RepTable(parent.view.next, off, rs) && Reach(rs, off, words)
      requires Fits(r, words) && (off == 0 || r.len > off) && r.len <= off + Stride(off) && off < 32 * words
      requires AllAgree(rs, r.prefix, off)
      modifies parent.repr, this`ledger
      ensures parent.Valid() && SameShape(parent)
      ensures placed == if HasRoute(rs, r) then 0 else Placed(grant, 0, Span(off, r.len))
      ensures ok <==> placed == Span(off, r.len)
      ensures parent.view == old(parent.view).(next := AddTable(old(parent.view).next, off, r, placed))
      ensures ledger == Pulls(old(ledger), r, placed)
    {
      hide Span, Base, RepTable, AddTable, Insert, AllAgree, Entry, SameRoute, LpmNode.Valid;
      var base, range := Base(r, off), Span(off, r.len);
      ghost var t := parent.view.next;
      TouchedRun(r, off, 0);
      RepSize(t, off, rs);
      AddNone(t, off, r);
      placed := 0;
      while placed < range
        invariant placed <= range && placed <= grant && (placed > 0 ==> !HasRoute(rs, r))
        invariant parent.Valid() && SameShape(parent)
        invariant parent.view == old(parent.view).(next := AddTable(t, off, r, placed))
        invariant ledger == Pulls(old(ledger), r, placed)
      {
        if placed == grant {
          return false, placed;
        }
        var j := base + placed;
        AddTableStep(t, off, r, placed);
        TouchedRun(r, off, j);
        EntryLists(t, off, rs, r, j);
        ViewOfChild(parent, j);
        var inserted := EntryInsert(parent, j, r);
        if !inserted {
          return false, placed;
        }
        placed := placed + 1;
      }
      ok := true;
    }

    /** Release the table below an entry if nothing is left in it. */
    method PruneTable(parent: LpmNode)
      requires parent.Valid()
      modifies parent
      ensures parent.Valid() && parent.repr == old(parent.repr) && parent.head == old(parent.head)
      ensures parent.view == old(parent.view).(next := Prune(old(parent.view).next))
    {
      var i := 0;
      while i < |parent.next|
        invariant 0 <= i <= |parent.next|
        invariant forall k | 0 <= k < i :: parent.view.next[k] == EMPTY
        invariant parent.Valid() && parent.view == old(parent.view) && parent.next == old(parent.next)
        invariant parent.repr == old(parent.repr) && parent.head == old(parent.head)
      {
        assert parent.next[i].Valid();
        if parent.next[i].next != [] || parent.next[i].head != [] {
          assert parent.view.next[i] != EMPTY;
          return;
        }
        i := i + 1;
      }
      parent.next := [];
      parent.view := parent.view.(next := []);
    }

    /** A child has changed below: the entry above it follows. */
    ghost method FollowChild(parent: LpmNode, i: nat, before: set<LpmNode>)
      requires i < |parent.next|
      requires var c := parent.next[i];
               && c.Valid() && parent !in c.repr && parent in parent.repr
               && before <= parent.repr && c.repr - before !! parent.repr
               && forall k | 0 <= k < |parent.next| && k != i :: parent.next[k].repr !! before
      requires parent.view.head == parent.head && |parent.view.next| == |parent.next|
      requires parent.next[i] in parent.repr
      requires forall k | 0 <= k < |parent.next| && k != i ::
                 && parent.next[k] in parent.repr && parent.next[k].repr <= parent.repr && parent !in parent.next[k].repr
                 && parent.next[k].view == parent.view.next[k] && parent.next[k].Valid()
      requires forall k, l | 0 <= k < l < |parent.next| && k != i && l != i :: parent.next[k].repr !! parent.next[l].repr
      modifies parent`view, parent`repr
      ensures parent.Valid() && parent.repr == old(parent.repr) + parent.next[i].repr
      ensures parent.view == old(parent.view).(next := old(parent.view).next[i := parent.next[i].view])
    {
      parent.view := parent.view.(next := parent.view.next[i := parent.next[i].view]);
      parent.repr := parent.repr + parent.next[i].repr;
    }

    /** Add a route below an entry: create the table if there is none, go down or
        expand here, and on failure release the table again if it is empty. */
    method AddBelow(parent: LpmNode, off: nat, r: Route, grant: nat, ghost rs: seq<Route>)
      returns (ok: bool, placed: nat)
      requires parent.Valid() && Level(off) && off > 0 && Fits(r, words) && r.len > off
      requires RepNode(parent.view, off, rs) && Reach(Far(rs, off), off, words)
      requires AllAgree(Far(rs, off), r.prefix, off)
      modifies parent.repr, this`ledger
      ensures parent.Valid() && old(parent.repr) <= parent.repr && fresh(parent.repr - old(parent.repr))
      ensures placed == if HasRoute(Far(rs, off), r) then 0
                        else Placed(grant, MissingNode(old(parent.view), off, r), Expansion(off, r.len))
      ensures ok <==> placed == Expansion(off, r.len)
      ensures parent.view == if placed == 0 then old(parent.view) else AddNode(old(parent.view), off, r, placed)
      ensures ledger == Pulls(old(ledger), r, placed)
      decreases r.len - off, 2
    {
      hide RepTable, AllAgree, AddTable, HasRoute, Entry, Span, Keep, Sorted, Touches;
      ghost var far := Far(rs, off);
      RepNextNonEmpty(parent.view, off, rs);
      var left := grant;
      if parent.next == [] {
        if grant == 0 {
          return false, 0;
        }
        left := grant - 1;
        LinkNewTable(parent, off);
        EmptyRep(parent.view.next, off);
      }
      ghost var t := parent.view.next;
      assert RepTable(t, off, far);
      RepSize(t, off, far);
      ok, placed := AddInTable(parent, off, r, left, far);
      if !ok {
        AddNone(t, off, r);
        if placed > 0 {
          AddNotEmpty(t, off, r, placed);
        } else if far != [] {
          RepEmpty(t, off, far, words);
        }
        PruneTable(parent);
      }
    }

    /** The part of an add that works on a table that exists. */
    method AddInTable(parent: LpmNode, off: nat, r: Route, grant: nat, ghost rs: seq<Route>)
      returns (ok: bool, placed: nat)
      requires parent.Valid() && Fits(r, words) && (off == 0 || r.len > off) && off < 32 * words
      requires RepTable(parent.view.next, off, rs) && Reach(rs, off, words) && AllAgree(rs, r.prefix, off)
      modifies parent.repr, this`ledger
      ensures parent.Valid() && old(parent.repr) <= parent.repr && fresh(parent.repr - old(parent.repr))
      ensures parent.next == old(parent.next) && parent.head == old(parent.head)
      ensures placed == if HasRoute(rs, r) then 0
                        else Placed(grant, MissingTable(old(parent.view).next, off, r), Expansion(off, r.len))
      ensures ok <==> placed == Expansion(off, r.len)
      ensures parent.view == old(parent.view).(next := AddTable(old(parent.view).next, off, r, placed))
      ensures ledger == Pulls(old(ledger), r, placed)
      decreases r.len - off, 1
    {
      hide RepTable, AllAgree, AddTable, HasRoute, Entry, Span, Keep, Sorted, Touches;
      if r.len <= off + Stride(off) {
        ok, placed := PlaceRun(parent, off, r, grant, rs);
      } else {
        ok, placed := AddInChild(parent, off, r, grant, rs);
      }
    }

    /** Going down: the one entry the route runs through. */
    method AddInChild(parent: LpmNode, off: nat, r: Route, grant: nat, ghost rs: seq<Route>)
      returns (ok: bool, placed: nat)
      requires parent.Valid() && Fits(r, words) && r.len > off + Stride(off)
      requires RepTable(parent.view.next, off, rs) && Reach(rs, off, words) && AllAgree(rs, r.prefix, off)
      modifies parent.repr, this`ledger
      ensures parent.Valid() && old(parent.repr) <= parent.repr && fresh(parent.repr - old(parent.repr))
      ensures parent.next == old(parent.next) && parent.head == old(parent.head)
      ensures placed == if HasRoute(rs, r) then 0
                        else Placed(grant, MissingTable(old(parent.view).next, off, r), Expansion(off, r.len))
      ensures ok <==> placed == Expansion(off, r.len)
      ensures parent.view == old(parent.view).(next := AddTable(old(parent.view).next, off, r, placed))
      ensures ledger == Pulls(old(ledger), r, placed)
      decreases r.len - off, 0
    {
      hide RepTable, AllAgree, AddTable, AddNode, HasRoute, Entry, Span, Keep, Sorted, Touches, RepNode;
      var i, e := Entry(r.prefix, off), off + Stride(off);
      ghost var t, sub := parent.view.next, Through(rs, off, i);
      RepSize(t, off, rs);
      RepAt(t, off, rs, i);
      FarReach(rs, off, i, words);
      TouchesSelf(r, off);
      AgreeAll(off, rs, r, i);
      HasBelow(off, rs, r, i);
      AddNone(t, off, r);
      var child := parent.next[i];
      ghost var before := child.repr;
      ok, placed := AddBelow(child, e, r, grant, sub);
      if placed > 0 {
        AddTableBelow(t, off, r, placed);
      }
      FollowChild(parent, i, before);
      assert t[i := t[i]] == t;
    }

    /** Give a record back to the allocator. */
    method Free(r: Route)
      modifies this`ledger
      ensures ledger == Freed(old(ledger), r)
    {
      if r !in ledger.records {
        ledger := ledger.(fault := true);
      }
      ledger := ledger.(records := ledger.records - {r});
    }

    /** Drop one reference; the last one frees the record. */
    method EntryPut(r: Route)
      requires r in ledger.refs
      modifies this`ledger
      ensures ledger == Put(old(ledger), r)
    {
      ledger := ledger.(refs := ledger.refs[r := ledger.refs[r] - 1]);
      if ledger.refs[r] == 0 {
        Free(r);
      }
    }

    /** Unlink the first listed route with this id and length. */
    method EntryDelete(parent: LpmNode, j: nat, id: int, len: nat) returns (ok: bool, ghost gone: Route)
      requires parent.Valid() && j < |parent.next|
      requires Single(parent.next[j].head, id, len) && Counted(parent.next[j].head, ledger)
      modifies parent.next[j], parent`view, this`ledger
      ensures parent.Valid() && SameShape(parent)
      ensures ok <==> !NoMatch(old(parent.next[j].head), id, len)
      ensures ok ==> gone in old(parent.next[j].head) && Identify(gone, id, len)
                     && parent.view == WithHead(old(parent.view), j, Drop(old(parent.next[j].head), id, len))
                     && ledger == Put(old(ledger), gone)
      ensures !ok ==> parent.view == old(parent.view) && ledger == old(ledger)
    {
      hide LpmNode.Valid, Put;
      var l := parent.next[j].head;
      gone := Route(0, [], 0, 0, [], 0, Local);
      var k := 0;
      while k < |l|
        invariant 0 <= k <= |l| && forall i | 0 <= i < k :: !Identify(l[i], id, len)
      {
        if Identify(l[k], id, len) {
          gone := l[k];
          DropAt(l, id, len, k);
          SetHead(parent, j, l[..k] + l[k + 1..]);
          EntryPut(l[k]);
          return true, gone;
        }
        k := k + 1;
      }
      ok := false;
    }

    /** Take back the copy in one entry of the first table. */
    method RollbackEntry(r: Route, j: nat, hi: nat, ghost t: seq<Node>, ghost rs: seq<Route>)
      requires root.Valid() && RepTable(t, 0, rs) && Reach(rs, 0, words) && words > 0
      requires Fits(r, words) && r.len <= 16 && !HasRoute(rs, r)
      requires j < hi && j < |t| && Touches(r, 0, j) && root.view.next == Added(t, r, j, hi)
      requires r in ledger.refs && Counted(rs, ledger)
      modifies root.repr, this`ledger
      ensures root.Valid() && SameShape(root)
      ensures root.view == old(root.view).(next := Added(t, r, j + 1, hi))
      ensures ledger == Put(old(ledger), r)
    {
      hide RepTable, Insert, SameRoute, Keep, Touches, LpmNode.Valid, HasRoute, Added, Reach, Put;
      InsertedThenDropped(t, rs, r, j);
      AddedStep(t, r, j, hi);
      ViewOfChild(root, j);
      var deleted, gone := EntryDelete(root, j, r.id, r.len);
      assert Identify(r, r.id, r.len);
    }

    /** Undo a partial expansion in the first table, entry by entry. */
    method Rollback(r: Route, placed: nat, ghost t: seq<Node>, ghost rs: seq<Route>)
      requires root.Valid() && RepTable(t, 0, rs) && Reach(rs, 0, words) && words > 0
      requires Fits(r, words) && r.len <= 16 && placed < Span(0, r.len)
      requires root.view.next == AddTable(t, 0, r, placed) && (placed > 0 ==> !HasRoute(rs, r))
      requires ledger.refs[r] == placed && Counted(rs, ledger)
      modifies root.repr, this`ledger
      ensures root.Valid() && SameShape(root) && root.view == old(root.view).(next := t)
      ensures ledger == Puts(old(ledger), r, placed)
    {
      hide Span, Base, RepTable, Entry, SameRoute, Touches, LpmNode.Valid, HasRoute, AddTable, Reach, Added, Pow2,
        Counted, Put;
      var base := Base(r, 0);
      RepSize(t, 0, rs);
      AddedRun(t, 0, r, placed);
      var i := 0;
      while i < placed
        invariant 0 <= i <= placed
        invariant root.Valid() && SameShape(root)
        invariant root.view == old(root.view).(next := Added(t, r, base + i, base + placed))
        invariant ledger == Puts(old(ledger), r, i)
      {
        TouchedRun(r, 0, base + i);
        PutsCounted(rs, old(ledger), r, i);
        RollbackEntry(r, base + i, base + placed, t, rs);
        i := i + 1;
      }
      AddedNone(t, r, base + placed);
    }

    /** Place a record in the trie. Only the first table takes back what a failed
        expansion has placed, and taking back the last copy frees the record. */
    method LpmAdd(r: Route, grant: nat, ghost rs: seq<Route>) returns (ok: bool, placed: nat)
      requires root.Valid() && RepTable(root.view.next, 0, rs) && Reach(rs, 0, words)
      requires Fits(r, words) && AllAgree(rs, r.prefix, 0) && ledger.refs[r] == 0 && Counted(rs, ledger)
      modifies root.repr, this`ledger
      ensures root.Valid() && fresh(root.repr - old(root.repr))
      ensures placed == if HasRoute(rs, r) then 0
                        else Placed(grant, MissingTable(old(root.view).next, 0, r), Expansion(0, r.len))
      ensures ok <==> placed == Expansion(0, r.len)
      ensures ok || r.len > 16 ==>
                && root.view == old(root.view).(next := AddTable(old(root.view).next, 0, r, placed))
                && ledger == Pulls(old(ledger), r, placed)
      ensures !ok && r.len <= 16 ==>
                && root.view == old(root.view)
                && ledger == Puts(Pulls(old(ledger), r, placed), r, placed)
    {
      hide RepTable, HasRoute, Held, AddTable, AllAgree, Counted, Puts, Pulls;
      if r.len > 16 {
        ok, placed := AddInChild(root, 0, r, grant, rs);
      } else {
        ShortPrefix(root.view.next, r);
        ghost var t := root.view.next;
        ok, placed := PlaceRun(root, 0, r, grant, rs);
        if !ok {
          PullsCounted(rs, old(ledger), r, placed);
          Rollback(r, placed, t, rs);
        }
      }
    }

    /** Add a route. `grant` says how many requests for memory succeed from here on:
        one for the record, one for each missing table, one for each copy.

        The table comes out consistent exactly when the add is not torn, that is
        unless memory runs out after the first copy and before the last. A torn add
        frees the record twice (first table) or leaves copies of a freed record in
        the trie (below it). */
    method RouteUpdate(r: Route, grant: nat) returns (ok: bool)
      requires Valid() && Fits(r, words) && r !in ledger.records
      modifies this, root.repr
      ensures root == old(root) && root.Valid() && fresh(root.repr - old(root.repr))
      ensures ok <==> !HasRoute(old(live), r)
                      && grant >= 1 + MissingTable(old(root.view).next, 0, r) + Expansion(0, r.len)
      ensures live == if ok then [r] + old(live) else old(live)
      ensures Valid() <==> !Torn(old(live), old(root.view).next, r, grant)
      ensures ok ==> root.view.next == AddTable(old(root.view).next, 0, r, Expansion(0, r.len))
      ensures !ok && !Torn(old(live), old(root.view).next, r, grant) ==>
                root.view == old(root.view) && ledger == old(ledger)
      ensures Torn(old(live), old(root.view).next, r, grant) && r.len <= 16 ==> ledger.fault
      ensures Torn(old(live), old(root.view).next, r, grant) && r.len > 16 ==>
                r !in ledger.records && ledger.refs[r] > 0 && root.view.next
                == AddTable(old(root.view).next, 0, r, grant - 1 - MissingTable(old(root.view).next, 0, r))
    {
      hide RepTable, HasRoute, Expansion, Held, Distinct, AddTable, MissingTable, LpmNode.Valid, Puts;
      if grant == 0 {
        return false;
      }
      ghost var t, rs, before := root.view.next, live, ledger;
      ReadyToAdd(t, rs, r, words);
      ledger := ledger.(records := ledger.records + {r});
      var placed;
      ok, placed := LpmAdd(r, grant - 1, rs);
      if ok {
        live := [r] + live;
        HeldAfterAdd(t, rs, r);
      } else {
        Free(r);
        FailedAdd(t, rs, r, placed);
        FailedLedger(before, r, placed);
      }
    }

    /** Unlink the route from one entry of its run. */
    method DeleteEntry(parent: LpmNode, off: nat, q: Route, lo: nat, j: nat, ghost t: seq<Node>, ghost rs: seq<Route>,
                       ghost r: Route)
      returns (ok: bool)
      requires parent.Valid() && RepTable(t, off, rs) && Reach(rs, off, words) && Distinct(rs)
      requires Fits(q, words) && (off == 0 || q.len > off) && q.len <= off + Stride(off)
      requires AllAgree(rs, q.prefix, off) && Counted(rs, ledger)
      requires lo <= j < |t| && Touches(q, off, j) && parent.view.next == Deleted(t, q, lo, j)
      requires HasRoute(rs, q) ==> r in rs && SameRoute(r, q)
      modifies parent.repr, this`ledger
      ensures parent.Valid() && SameShape(parent)
      ensures ok <==> HasRoute(rs, q)
      ensures ok ==> && parent.view == old(parent.view).(next := Deleted(t, q, lo, j + 1))
                     && ledger == Put(old(ledger), r)
      ensures !ok ==> parent.view == old(parent.view) && ledger == old(ledger)
    {
      hide RepTable, AllAgree, SameRoute, LpmNode.Valid, Deleted, Reach, Distinct, HasRoute, Keep, Touches, Put;
      DeletedStep(t, q, lo, j);
      EntryLists(t, off, rs, q, j);
      EntrySubset(t, off, rs, j);
      EntrySingle(t, off, rs, q, j);
      ViewOfChild(parent, j);
      ghost var gone;
      ok, gone := EntryDelete(parent, j, q.id, q.len);
      if ok {
        EntryRoute(t, off, rs, q, j, gone, r);
      }
    }

    /** Unlink the route from the i-th entry of its run. */
    method DeleteNth(parent: LpmNode, off: nat, q: Route, i: nat, ghost t: seq<Node>, ghost rs: seq<Route>,
                     ghost r: Route, ghost m: Ledger)
      returns (ok: bool)
      requires parent.Valid() && RepTable(t, off, rs) && Reach(rs, off, words) && Distinct(rs)
      requires Fits(q, words) && (off == 0 || q.len > off) && q.len <= off + Stride(off) && off < 32 * words
      requires AllAgree(rs, q.prefix, off) && Counted(rs, m)
      requires i < Span(off, q.len) && (i > 0 ==> HasRoute(rs, q))
      requires parent.view.next == Deleted(t, q, Base(q, off), Base(q, off) + i) && ledger == Puts(m, r, i)
      requires HasRoute(rs, q) ==> r in rs && SameRoute(r, q) && m.refs[r] == Span(off, q.len)
      modifies parent.repr, this`ledger
      ensures parent.Valid() && SameShape(parent)
      ensures ok <==> HasRoute(rs, q)
      ensures ok ==> && parent.view == old(parent.view).(next := Deleted(t, q, Base(q, off), Base(q, off) + i + 1))
                     && ledger == Puts(m, r, i + 1)
      ensures !ok ==> parent.view == old(parent.view) && ledger == old(ledger)
    {
      hide Span, Base, RepTable, AllAgree, SameRoute, LpmNode.Valid, Deleted, Pow2, Distinct, HasRoute, Touches, Put,
        Puts;
      PutsNone(m, r);
      PutsStep(m, r, i + 1);
      TouchedRun(q, off, Base(q, off) + i);
      RepSize(t, off, rs);
      if HasRoute(rs, q) {
        PutsCounted(rs, m, r, i);
      }
      ok := DeleteEntry(parent, off, q, Base(q, off), Base(q, off) + i, t, rs, r);
    }

    /** Unlink the route from the run of entries its prefix expands to: all of them
        hold it or none does. */
    method DeleteRun(parent: LpmNode, off: nat, q: Route, ghost rs: seq<Route>, ghost r: Route) returns (ok: bool)
      requires parent.Valid() && RepTable(parent.view.next, off, rs) && Reach(rs, off, words) && Distinct(rs)
      requires Fits(q, words) && (off == 0 || q.len > off) && q.len <= off + Stride(off) && off < 32 * words
      requires AllAgree(rs, q.prefix, off) && Counted(rs, ledger)
      requires HasRoute(rs, q) ==> r in rs && SameRoute(r, q) && ledger.refs[r] == Span(off, q.len)
      modifies parent.repr, this`ledger
      ensures parent.Valid() && SameShape(parent)
      ensures ok <==> HasRoute(rs, q)
      ensures ok ==> parent.view == old(parent.view).(next := DelTable(old(parent.view).next, off, q))
                     && ledger == Puts(old(ledger), r, Span(off, q.len))
      ensures !ok ==> parent.view == old(parent.view) && ledger == old(ledger)
    {
      hide Span, Base, RepTable, AllAgree, SameRoute, LpmNode.Valid, Deleted, DelTable, Distinct, Counted, HasRoute, Puts;
      ghost var t := parent.view.next;
      DeletedNone(t, q, Base(q, off));
      PutsNone(ledger, r);
      var i := 0;
      while i < Span(off, q.len)
        invariant 0 <= i <= Span(off, q.len) && (i > 0 ==> HasRoute(rs, q))
        invariant parent.Valid() && SameShape(parent)
        invariant parent.view == old(parent.view).(next := Deleted(t, q, Base(q, off), Base(q, off) + i))
        invariant ledger == Puts(old(ledger), r, i)
      {
        ok := DeleteNth(parent, off, q, i, t, rs, r, old(ledger));
        if !ok {
          return;
        }
        i := i + 1;
      }
      RepSize(t, off, rs);
      DeletedRun(t, off, q);
      ok := true;
    }

    /** Delete a route below an entry, and release the table if that empties it. */
    method DeleteBelow(parent: LpmNode, off: nat, q: Route, ghost rs: seq<Route>, ghost r: Route) returns (ok: bool)
      requires parent.Valid() && Level(off) && off > 0 && Fits(q, words) && q.len > off
      requires RepNode(parent.view, off, rs) && Reach(Far(rs, off), off, words) && Distinct(Far(rs, off))
      requires AllAgree(Far(rs, off), q.prefix, off) && Counted(Far(rs, off), ledger)
      requires HasRoute(Far(rs, off), q) ==>
                 r in Far(rs, off) && SameRoute(r, q) && ledger.refs[r] == Expansion(off, q.len)
      modifies parent.repr, this`ledger
      ensures parent.Valid() && parent.repr == old(parent.repr)
      ensures ok <==> HasRoute(Far(rs, off), q)
      ensures ok ==> parent.view == DelNode(old(parent.view), off, q)
                     && ledger == Puts(old(ledger), r, Expansion(off, q.len))
      ensures !ok ==> parent.view == old(parent.view) && ledger == old(ledger)
      decreases q.len - off, 2
    {
      hide RepTable, AllAgree, DelTable, Keep, Sorted, SameRoute, Distinct, Counted, Puts, Expansion, Prune;
      RepNextNonEmpty(parent.view, off, rs);
      if parent.next == [] {
        return false;
      }
      ok := DeleteInTable(parent, off, q, Far(rs, off), r);
      if ok {
        PruneTable(parent);
      }
    }

    /** The part of a delete that works on a table that exists. */
    method DeleteInTable(parent: LpmNode, off: nat, q: Route, ghost rs: seq<Route>, ghost r: Route) returns (ok: bool)
      requires parent.Valid() && Fits(q, words) && (off == 0 || q.len > off) && off < 32 * words
      requires RepTable(parent.view.next, off, rs) && Reach(rs, off, words) && Distinct(rs)
      requires AllAgree(rs, q.prefix, off) && Counted(rs, ledger)
      requires HasRoute(rs, q) ==> r in rs && SameRoute(r, q) && ledger.refs[r] == Expansion(off, q.len)
      modifies parent.repr, this`ledger
      ensures parent.Valid() && SameShape(parent)
      ensures ok <==> HasRoute(rs, q)
      ensures ok ==> parent.view == old(parent.view).(next := DelTable(old(parent.view).next, off, q))
                     && ledger == Puts(old(ledger), r, Expansion(off, q.len))
      ensures !ok ==> parent.view == old(parent.view) && ledger == old(ledger)
      decreases q.len - off, 1
    {
      hide RepTable, AllAgree, DelTable, SameRoute, Distinct, Counted, Puts, Span, HasRoute;
      if q.len <= off + Stride(off) {
        ok := DeleteRun(parent, off, q, rs, r);
      } else {
        ok := DeleteInChild(parent, off, q, rs, r);
      }
    }

    /** Going down: the one entry the route runs through. */
    method DeleteInChild(parent: LpmNode, off: nat, q: Route, ghost rs: seq<Route>, ghost r: Route) returns (ok: bool)
      requires parent.Valid() && Fits(q, words) && q.len > off + Stride(off)
      requires RepTable(parent.view.next, off, rs) && Reach(rs, off, words) && Distinct(rs)
      requires AllAgree(rs, q.prefix, off) && Counted(rs, ledger)
      requires HasRoute(rs, q) ==> r in rs && SameRoute(r, q) && ledger.refs[r] == Expansion(off, q.len)
      modifies parent.repr, this`ledger
      ensures parent.Valid() && SameShape(parent)
      ensures ok <==> HasRoute(rs, q)
      ensures ok ==> parent.view == old(parent.view).(next := DelTable(old(parent.view).next, off, q))
                     && ledger == Puts(old(ledger), r, Expansion(off, q.len))
      ensures !ok ==> parent.view == old(parent.view) && ledger == old(ledger)
      decreases q.len - off, 0
    {
      hide RepTable, AllAgree, DelTable, DelNode, HasRoute, Entry, Keep, Sorted, Touches, RepNode, SameRoute, Distinct,
        Counted, Puts;
      var i, e := Entry(q.prefix, off), off + Stride(off);
      ghost var t, sub := parent.view.next, Through(rs, off, i);
      RepSize(t, off, rs);
      RepAt(t, off, rs, i);
      FarReach(rs, off, i, words);
      TouchesSelf(q, off);
      AgreeAll(off, rs, q, i);
      HasBelow(off, rs, q, i);
      BelowSubset(off, rs, q, i, r, ledger);
      var child := parent.next[i];
      ghost var before := child.repr;
      ok := DeleteBelow(child, e, q, sub, r);
      if ok {
        DelTableBelow(t, off, q);
      }
      FollowChild(parent, i, before);
      assert t[i := t[i]] == t;
    }

    /** Delete a route. It succeeds exactly when the route is there; then no entry
        holds it any more, its record has been freed once and nothing else has
        changed. */
    method RouteDelete(q: Route) returns (ok: bool)
      requires Valid() && Fits(q, words)
      modifies this, root.repr
      ensures Valid() && root == old(root) && root.repr == old(root.repr)
      ensures ok <==> HasRoute(old(live), q)
      ensures live == Minus(old(live), q)
      ensures ok ==> root.view.next == DelTable(old(root.view).next, 0, q)
      ensures !ok ==> root.view == old(root.view) && ledger == old(ledger) && live == old(live)
    {
      hide RepTable, DelTable, SameRoute, Distinct, Puts, Expansion, Held, Minus, LpmNode.Valid, HasRoute;
      ghost var t, rs := root.view.next, live;
      ghost var r := if HasRoute(rs, q) then TheRoute(rs, q) else q;
      ReadyToDelete(t, rs, q, r, words);
      ok := DeleteInTable(root, 0, q, rs, r);
      if ok {
        live := Minus(live, q);
        HeldAfterDelete(t, rs, q, r);
        PutsAll(old(ledger), r);
      }
    }

    /** Search the table below an entry for an address. */
    method LookupBelow(parent: LpmNode, off: nat, dst: Address, ghost rs: seq<Route>) returns (best: Option<Route>)
      requires parent.Valid() && RepTable(parent.view.next, off, rs) && Reach(rs, off, |dst|)
      requires off < 32 * |dst| && AllAgree(rs, dst, off)
      ensures best == Scan(rs, dst)
      decreases 32 * |dst| - off
    {
      hide RepTable, AllAgree, Entry, Keep, Sorted, Touches;
      ghost var sub, e := Through(rs, off, Entry(dst, off)), off + Stride(off);
      RepSize(parent.view.next, off, rs);
      RepAt(parent.view.next, off, rs, Entry(dst, off));
      var node := parent.next[Entry(dst, off)];
      LookupEntry(node.view, off, dst, rs);
      RepNextNonEmpty(node.view, e, sub);
      best := None;
      if node.next != [] {
        best := LookupBelow(node, off + Stride(off), dst, Far(sub, e));
      }
      if best.None? && node.head != [] {
        best := Some(node.head[0]);
      }
    }

    /** Lookup finds what a linear scan of the routes finds. */
    method Lookup(dst: Address) returns (best: Option<Route>)
      requires Valid() && |dst| == words
      ensures best == Scan(live, dst)
    {
      best := LookupBelow(root, 0, dst, live);
    }

    /** Drop every route of one list. */
    method ReleaseHead(n: LpmNode)
      requires n.Valid() && Balanced(ledger) && multiset(n.head) <= ledger.refs
      modifies n`head, n`view, this`ledger
      ensures n.Valid() && n.view == old(n.view).(head := [])
      ensures Balanced(ledger) && old(ledger).refs == ledger.refs + multiset(old(n.head))
    {
      hide LpmNode.Valid, Put, Balanced;
      ghost var l := n.head;
      ghost var k := 0;
      HeadOfView(n);
      assert l[0..] == l && multiset(l[..0]) == multiset{};
      while n.head != []
        invariant 0 <= k <= |l| && n.head == l[k..]
        invariant n.Valid() && n.view == old(n.view).(head := n.head)
        invariant Balanced(ledger) && multiset(n.head) <= ledger.refs
        invariant old(ledger).refs == ledger.refs + multiset(l[..k])
        decreases |n.head|
      {
        var r := n.head[0];
        ListStep(l, k, ledger, old(ledger).refs);
        PutBalanced(ledger, r);
        ClearHead(n, n.head[1..]);
        EntryPut(r);
        k := k + 1;
      }
      assert l[..k] == l;
    }

    lemma HeadOfView(n: LpmNode)
      requires n.Valid()
      ensures n.view.head == n.head
    {
    }

    method ClearHead(n: LpmNode, l: seq<Route>)
      requires n.Valid()
      modifies n`head, n`view
      ensures n.Valid() && n.head == l && n.view == old(n.view).(head := l)
    {
      n.head := l;
      n.view := n.view.(head := l);
      assert forall i | 0 <= i < |n.next| :: n !in n.next[i].repr;
    }

    /** Drop every route at and below an entry, and release the tables below it. */
    method ReleaseNode(n: LpmNode)
      requires n.Valid() && Balanced(ledger) && HeldNode(n.view) <= ledger.refs
      modifies n.repr, this`ledger
      ensures n.Valid() && n.view == EMPTY && n.repr == old(n.repr)
      ensures Balanced(ledger) && old(ledger).refs == ledger.refs + HeldNode(old(n.view))
      decreases n.repr
    {
      hide Balanced, HeldTable;
      ghost var t := n.view.next;
      assert HeldNode(n.view) == multiset(n.head) + HeldTable(t, |t|);
      var i := 0;
      HeldTableNone(t);
      while i < |n.next|
        invariant 0 <= i <= |n.next| == |t| && n.next == old(n.next) && n.head == old(n.head) && n.repr == old(n.repr)
        invariant n.view == old(n.view)
        invariant Balanced(ledger) && old(ledger).refs == ledger.refs + HeldTable(t, i)
        invariant forall k | i <= k < |n.next| ::
                    && n.next[k].Valid() && n.next[k].view == t[k] && n.next[k].repr == old(n.next[k].repr)
      {
        HeldTableNext(t, i, ledger.refs, old(ledger).refs);
        ReleaseNode(n.next[i]);
        i := i + 1;
      }
      n.next := [];
      n.view := n.view.(next := []);
      TakeAway(multiset(n.head), HeldTable(t, |t|), old(ledger).refs, ledger.refs);
      ReleaseHead(n);
    }

    /** Empty one entry of the first table. */
    method ReleaseEntry(i: nat, ghost t: seq<Node>, ghost before: multiset<Route>)
      requires root.Valid() && i < |root.next| == |t| && root.view.next == Emptied(t, i)
      requires Balanced(ledger) && before == ledger.refs + HeldTable(t, i) && HeldTable(t, |t|) <= before
      modifies root.repr, this`ledger
      ensures root.Valid() && SameShape(root) && root.view == old(root.view).(next := Emptied(t, i + 1))
      ensures Balanced(ledger) && before == ledger.refs + HeldTable(t, i + 1)
    {
      hide Balanced, HeldTable, HeldNode;
      HeldTableNext(t, i, ledger.refs, before);
      EmptiedStep(t, i);
      ghost var own := root.next[i].repr;
      ReleaseNode(root.next[i]);
      FollowChild(root, i, own);
    }

    /** Empty the table: every record is freed, each of them once. */
    method ReleaseAll()
      requires Valid()
      modifies this, root.repr
      ensures Valid() && root == old(root) && live == []
      ensures ledger == Ledger(multiset{}, {}, false)
    {
      hide RepTable, Reach, Distinct, Held, LpmNode.Valid, HeldTable, Balanced;
      ghost var t := root.view.next;
      ReadyToRelease(t, live, ledger, words);
      EmptiedNone(t);
      HeldTableNone(t);
      ChildCount(root);
      var i := 0;
      while i < |root.next|
        invariant 0 <= i <= |root.next| == |t| && root == old(root)
        invariant root.Valid() && SameShape(root) && root.view == old(root.view).(next := Emptied(t, i))
        invariant Balanced(ledger) && old(ledger).refs == ledger.refs + HeldTable(t, i)
      {
        ReleaseEntry(i, t, old(ledger).refs);
        i := i + 1;
      }
      AllReleased(t, old(live), ledger, old(ledger).refs, words);
      live := [];
    }

    lemma ChildCount(n: LpmNode)
      requires n.Valid()
      ensures |n.next| == |n.view.next|
    {
    }

    lemma ViewOfChild(parent: LpmNode, j: nat)
      requires parent.Valid() && j < |parent.view.next|
      ensures j < |parent.next| && parent.next[j].head == parent.view.next[j].head
      ensures parent in parent.repr && parent.next[j] in parent.repr
    {
      assert parent.next[j].Valid();
    }
  }
}
