/** The memory-leak demo: a singly linked list on the heap, grown at its tail by two
    alternating allocators and shrunk at its head. */
module AlphaList {

  class Alpha {
    var attr: int
    var next: Alpha?
    ghost const index: nat       // the how many-th allocation this was
    ghost var live: bool         // malloc'ed and not freed yet

    constructor (attr: int, ghost index: nat)
      ensures this.attr == attr && this.index == index && next == null && live
    {
      this.attr, this.index, next, live := attr, index, null, true;
    }
  }

  /** One alloc or dealloc call. */
  datatype Call = Alloc | Dealloc

  /** How many nodes were allocated and how many of them freed. */
  datatype Tally = Tally(created: nat, freed: nat)

  function Count(t: Tally, call: Call): Tally
  {
    match call
    case Alloc => t.(created := t.created + 1)
    case Dealloc => if t.freed < t.created then t.(freed := t.freed + 1) else t
  }

  function CountAll(t: Tally, calls: seq<Call>): Tally
  {
    if calls == [] then t else Count(CountAll(t, calls[..|calls| - 1]), calls[|calls| - 1])
  }

  /** half is k / 2, rounded down. */
  predicate IsHalf(half: int, k: nat) { 0 <= k - 2 * half <= 1 }

  /** What the list holds after so many allocations and removals. */
  function Attributes(t: Tally): seq<int>
  {
    seq(if t.freed <= t.created then t.created - t.freed else 0, k => (t.freed + k) / 2)
  }

  class LeakyList {
    var root: Alpha?
    var cnt1: int                 // alloc1's static counter
    var cnt2: int                 // alloc2's static counter
    var x: int                    // alloc's static switch
    ghost var history: seq<Alpha> // every node ever allocated, oldest first
    ghost var freed: seq<Alpha>   // every free of a node, in order

    /** The nodes not freed form the list, in the order of their allocation; the freed ones
        are the oldest, each freed once. */
    ghost predicate Linked()
      reads this, history
    {
      && (forall k :: 0 <= k < |history| ==> history[k].index == k)
      && |freed| <= |history| && freed == history[..|freed|]
      && (forall k {:trigger history[k].live} :: 0 <= k < |history| ==> (history[k].live <==> |freed| <= k))
      && root == NodeAt(|freed|)
      && (forall k {:trigger history[k].next} :: |freed| <= k < |history| ==> history[k].next == NodeAt(k + 1))
    }

    ghost function NodeAt(k: nat): Alpha?
      reads this
    {
      if k < |history| then history[k] else null
    }

    ghost function CurrentTally(): Tally
      reads this
    {
      Tally(|history|, |freed|)
    }

    ghost predicate Valid()
      reads this, history
    {
      && Linked()
      && (forall k {:trigger history[k].attr} :: |freed| <= k < |history| ==> IsHalf(history[k].attr, k))
      && 0 <= x <= 1 && cnt1 == cnt2 + x && cnt1 + cnt2 == |history|
    }

    /** The attributes found from the root on. */
    ghost function Contents(): seq<int>
      requires Linked()
      reads this, history
    {
      seq(|history| - |freed|, k requires 0 <= k < |history| - |freed| reads this, history => history[|freed| + k].attr)
    }

    constructor ()
      ensures Valid() && history == [] && freed == []
    {
      root, cnt1, cnt2, x := null, 0, 0, 0;
      history, freed := [], [];
    }

    /** Following the links from the root to the node without successor. */
    method FindLast() returns (n: Alpha)
      requires Linked() && root != null
      ensures n == history[|history| - 1]
    {
      n := root;
      ghost var at := |freed|;
      while n.next != null
        invariant |freed| <= at < |history| && n == history[at] && n.live
        decreases |history| - at
      {
        n, at := n.next, at + 1;
      }
    }

    /** A new last node. Only the old last node, if any, changes. */
    method Append(attr: int)
      requires Linked()
      modifies this`root, this`history, history
      ensures Linked() && |history| == |old(history)| + 1 && old(history) <= history
      ensures fresh(history[|old(history)|]) && history[|old(history)|].attr == attr
      ensures forall k :: 0 <= k < |old(history)| ==> history[k].attr == old(history[k].attr)
    {
      var ele := new Alpha(attr, |history|);
      if root == null {
        root := ele;
        history := history + [ele];
      } else {
        LinkLast(ele);
      }
    }

    method LinkLast(ele: Alpha)
      requires Linked() && root != null
      requires ele.index == |history| && ele.live && ele.next == null
      modifies this`history, history
      ensures Linked() && history == old(history) + [ele]
      ensures forall k :: 0 <= k < |old(history)| ==> history[k].attr == old(history[k].attr)
      ensures ele.attr == old(ele.attr)
    {
      var n := FindLast();
      n.next := ele;
      history := history + [ele];
      assert forall k :: |freed| <= k < |history| - 1 ==> old(history[k].next) == old(NodeAt(k + 1));
    }

    method Alloc1()
      requires Linked()
      modifies this`root, this`history, this`cnt1, history
      ensures Linked() && cnt1 == old(cnt1) + 1
      ensures |history| == |old(history)| + 1 && old(history) <= history
      ensures fresh(history[|old(history)|]) && history[|old(history)|].attr == old(cnt1)
      ensures forall k :: 0 <= k < |old(history)| ==> history[k].attr == old(history[k].attr)
    {
      var attr := cnt1;
      cnt1 := cnt1 + 1;
      Append(attr);
    }

    method Alloc2()
      requires Linked()
      modifies this`root, this`history, this`cnt2, history
      ensures Linked() && cnt2 == old(cnt2) + 1
      ensures |history| == |old(history)| + 1 && old(history) <= history
      ensures fresh(history[|old(history)|]) && history[|old(history)|].attr == old(cnt2)
      ensures forall k :: 0 <= k < |old(history)| ==> history[k].attr == old(history[k].attr)
    {
      var attr := cnt2;
      cnt2 := cnt2 + 1;
      Append(attr);
    }

    method Alloc()
      requires Valid()
      modifies this`root, this`history, this`cnt1, this`cnt2, this`x, history
      ensures Valid()
      ensures |history| == |old(history)| + 1 && old(history) <= history
      ensures fresh(history[|old(history)|])
      ensures CurrentTally() == Count(old(CurrentTally()), Call.Alloc)
    {
      if x == 0 {
        Alloc1();
      } else {
        Alloc2();
      }
      x := (x + 1) % 2;
      assert forall k :: |freed| <= k < |old(history)| ==> IsHalf(old(history[k].attr), k);
      assert IsHalf(history[|old(history)|].attr, |old(history)|);
    }

    /** The head is unlinked and freed; with an empty list nothing happens. */
    method Dealloc()
      requires Valid()
      modifies this`root, this`freed, history
      ensures Valid() && history == old(history)
      ensures CurrentTally() == Count(old(CurrentTally()), Call.Dealloc)
      ensures old(root) == null ==> root == null && freed == old(freed)
      ensures old(root) != null ==> root == old(root.next) && freed == old(freed) + [old(root)]
    {
      var ele := root;
      if root != null {
        assert ele.live;
        root := ele.next;
      }
      if ele != null {
        ele.live := false;
        freed := freed + [ele];
      }
    }

    method RunCall(call: Call)
      requires Valid()
      modifies this, history
      ensures Valid() && CurrentTally() == Count(old(CurrentTally()), call)
      ensures old(history) <= history
      ensures forall k :: |old(history)| <= k < |history| ==> fresh(history[k])
    {
      match call {
        case Alloc => Alloc();
        case Dealloc => Dealloc();
      }
    }

    /** Any mix of calls. */
    method RunCalls(calls: seq<Call>)
      requires Valid()
      modifies this, history
      ensures Valid() && CurrentTally() == CountAll(old(CurrentTally()), calls)
      ensures old(history) <= history
    {
      ghost var start, nodes, t := CurrentTally(), history, CurrentTally();
      for i := 0 to |calls|
        invariant Valid() && CurrentTally() == t && nodes <= history
        invariant t == CountAll(start, calls[..i])
        invariant forall k :: |nodes| <= k < |history| ==> fresh(history[k])
      {
        CountOneMore(start, calls, i);
        t := Count(t, calls[i]);
        RunCall(calls[i]);
      }
      assert calls[..|calls|] == calls;
    }

    static lemma CountOneMore(start: Tally, calls: seq<Call>, i: nat)
      requires i < |calls|
      ensures CountAll(start, calls[..i + 1]) == Count(CountAll(start, calls[..i]), calls[i])
    {
      assert calls[..i + 1][..i] == calls[..i];
    }

    method AllocMany(n: nat)
      requires Valid() && history == []
      modifies this, history
      ensures Valid() && CurrentTally() == Tally(n, 0)
      ensures forall k :: 0 <= k < |history| ==> fresh(history[k])
    {
      for i := 0 to n
        invariant Valid() && CurrentTally() == Tally(i, 0)
        invariant forall k :: 0 <= k < |history| ==> fresh(history[k])
      {
        Alloc();
      }
    }

    method DeallocMany(n: nat)
      requires Valid() && |freed| == 0 && n <= |history|
      modifies this, history
      ensures Valid() && history == old(history) && CurrentTally() == Tally(|history|, n)
    {
      for i := 0 to n
        invariant Valid() && history == old(history) && CurrentTally() == Tally(|history|, i)
      {
        Dealloc();
      }
    }

    /** The tracing loop of the program, which visits every node in the list. */
    method Traverse() returns (visited: nat)
      requires Linked()
      ensures visited == |history| - |freed|
    {
      var p := root;
      visited := 0;
      while p != null
        invariant visited <= |history| - |freed| && p == NodeAt(|freed| + visited)
        decreases |history| - visited
      {
        p := p.next;
        visited := visited + 1;
      }
    }

    /** The list holds exactly i/2 for the allocations i that were not removed. */
    lemma ContentsAreCounted()
      requires Valid()
      ensures Contents() == Attributes(CurrentTally())
    {
    }

    /** The node k steps from the root; null beyond the last node. */
    ghost function Walk(k: nat): (n: Alpha?)
      requires Linked()
      reads this, history
      ensures n == NodeAt(|freed| + k)
    {
      if k == 0 then root
      else
        var before := Walk(k - 1);
        if before == null then null else before.next
    }

    /** A walk from the root ends, never repeats a node and never meets a freed one. */
    lemma WalkIsAcyclic(j: nat, k: nat)
      requires Linked() && j < k && Walk(j) != null
      ensures Walk(j) != Walk(k) && Walk(j).live && Walk(|history|) == null
    {
    }

    /** Every node ever allocated is either reachable from the root or was freed, once. */
    lemma NothingLost(i: nat)
      requires Linked() && i < |history|
      ensures (exists k :: Walk(k) == history[i]) <==> history[i] !in freed
      ensures forall j, k :: 0 <= j < k < |freed| ==> freed[j] != freed[k]
    {
      if i >= |freed| {
        assert Walk(i - |freed|) == history[i];
      } else {
        assert freed[i] == history[i];
        assert forall k: nat :: Walk(k) == NodeAt(|freed| + k);
      }
    }
  }

  /** The program: 4000 allocations, a traversal, 15 removals. The other 3985 nodes leak. */
  method LeakDemo() returns (list: LeakyList, visited: nat)
    ensures list.Valid() && visited == 4000
    ensures list.CurrentTally() == Tally(4000, 15)
    ensures |list.Contents()| == 3985 && list.Contents()[0] == 7 && list.Contents()[3984] == 1999
  {
    list := new LeakyList();
    list.AllocMany(4000);
    visited := list.Traverse();
    list.DeallocMany(15);
    list.ContentsAreCounted();
  }
}
