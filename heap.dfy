/**
 * The array-backed binary min-heap `PriorityQueue` of mp2.c, ordered by
 * `is_less_than`.
 */
module PriorityQueues {
  import opened Options
  import opened HuffmanTree

  /** `parent`; C's truncating division makes parent(0) == 0. */
  function Parent(i: nat): (p: nat)
    ensures i > 0 ==> p < i && (i == 2 * p + 1 || i == 2 * p + 2)
    ensures i == 0 ==> p == 0
  {
    if i == 0 then 0 else (i - 1) / 2
  }

  /** `left`: the slot whose parent is i. */
  function Left(i: nat): (c: nat)
    ensures c > i && Parent(c) == i
  {
    2 * i + 1
  }

  /** `right`: the other slot whose parent is i. */
  function Right(i: nat): (c: nat)
    ensures c > i && Parent(c) == i && c == Left(i) + 1
  {
    2 * i + 2
  }

  /** The heap property: no element is less than its parent. */
  ghost predicate IsMinHeap(s: seq<Tree>)
  {
    forall i :: 0 < i < |s| ==> !IsLessThan(s[i], s[Parent(i)])
  }

  /** In a heap nothing is less than the root. */
  lemma {:induction false} RootIsLeast(s: seq<Tree>, i: nat)
    requires IsMinHeap(s) && i < |s|
    ensures !IsLessThan(s[i], s[0])
    decreases i
  {
    if i > 0 {
      RootIsLeast(s, Parent(i));
      NotLessThanTransitive(s[i], s[Parent(i)], s[0]);
    }
  }

  /** The swap `swap_nodes` performs, on a sequence. */
  function Swapped(s: seq<Tree>, i: nat, j: nat): (t: seq<Tree>)
    requires i < |s| && j < |s|
    ensures |t| == |s| && t[i] == s[j] && t[j] == s[i]
    ensures forall k :: 0 <= k < |s| && k != i && k != j ==> t[k] == s[k]
    ensures multiset(t) == multiset(s)
  {
    s[i := s[j]][j := s[i]]
  }

  /** Sift-down state: the heap property may fail only between `idx` and its children. */
  ghost predicate HeapExceptAt(s: seq<Tree>, idx: nat)
  {
    && (forall i :: 0 < i < |s| && Parent(i) != idx ==> !IsLessThan(s[i], s[Parent(i)]))
    && (forall i :: 0 < i < |s| && Parent(i) == idx && idx > 0 ==> !IsLessThan(s[i], s[Parent(idx)]))
  }

  /** Sift-up state: the heap property may fail only between `i` and its parent. */
  ghost predicate HeapExceptAbove(s: seq<Tree>, i: nat)
  {
    && (forall j :: 0 < j < |s| && j != i ==> !IsLessThan(s[j], s[Parent(j)]))
    && (forall j :: 0 < j < |s| && Parent(j) == i && i > 0 ==> !IsLessThan(s[j], s[Parent(i)]))
  }

  lemma ChildrenOf(idx: nat, c: nat)
    requires 0 < c && Parent(c) == idx
    ensures c == Left(idx) || c == Right(idx)
  {
  }

  /** One swap of HEAPIFY moves the defect down to the slot `m` swapped with. */
  lemma SiftDownStep(s: seq<Tree>, idx: nat, m: nat)
    requires HeapExceptAt(s, idx) && idx < m < |s| && Parent(m) == idx
    requires IsLessThan(s[m], s[idx])
    requires Left(idx) < |s| ==> !IsLessThan(s[Left(idx)], s[m])
    requires Right(idx) < |s| ==> !IsLessThan(s[Right(idx)], s[m])
    ensures HeapExceptAt(Swapped(s, idx, m), m)
  {
    var t := Swapped(s, idx, m);
    forall i | 0 < i < |t| && Parent(i) != m
      ensures !IsLessThan(t[i], t[Parent(i)])
    {
      if Parent(i) == idx {
        ChildrenOf(idx, i);
        if i != m {
          NotLessThanTransitive(s[i], s[m], s[m]);
        }
      } else if i == idx {
        assert Parent(m) == idx;
      }
    }
  }

  /** HEAPIFY stops when neither child is less than `idx`: then it is a heap. */
  lemma SiftDownDone(s: seq<Tree>, idx: nat)
    requires HeapExceptAt(s, idx) && idx < |s|
    requires Left(idx) < |s| ==> !IsLessThan(s[Left(idx)], s[idx])
    requires Right(idx) < |s| ==> !IsLessThan(s[Right(idx)], s[idx])
    ensures IsMinHeap(s)
  {
    forall i | 0 < i < |s| && Parent(i) == idx
      ensures !IsLessThan(s[i], s[Parent(i)])
    {
      ChildrenOf(idx, i);
    }
  }

  /** Appending to a heap leaves a defect only above the new last slot. */
  lemma SiftUpStart(s: seq<Tree>, x: Tree)
    requires IsMinHeap(s)
    ensures HeapExceptAbove(s + [x], |s|)
  {
    var t := s + [x];
    forall j | 0 < j < |t| && Parent(j) == |s| && |s| > 0
      ensures false
    {
    }
  }

  /** One swap of the PQ_INSERT loop moves the defect up to the parent. */
  lemma SiftUpStep(s: seq<Tree>, i: nat)
    requires HeapExceptAbove(s, i) && 0 < i < |s|
    requires IsLessThan(s[i], s[Parent(i)])
    ensures HeapExceptAbove(Swapped(s, i, Parent(i)), Parent(i))
  {
    var p := Parent(i);
    var t := Swapped(s, i, p);
    forall j | 0 < j < |t| && j != p
      ensures !IsLessThan(t[j], t[Parent(j)])
    {
      if Parent(j) == p && j != i {
        NotLessThanTransitive(s[j], s[p], s[i]);
      }
    }
    forall j | 0 < j < |t| && Parent(j) == p && p > 0
      ensures !IsLessThan(t[j], t[Parent(p)])
    {
      if j != i {
        NotLessThanTransitive(s[j], s[p], s[Parent(p)]);
      }
    }
  }

  /** The PQ_INSERT loop stops at the root or below a parent not greater: a heap. */
  lemma SiftUpDone(s: seq<Tree>, i: nat)
    requires HeapExceptAbove(s, i) && i < |s|
    requires i == 0 || !IsLessThan(s[i], s[Parent(i)])
    ensures IsMinHeap(s)
  {
  }

  /** The root is least in the heap's multiset. */
  lemma RootIsLeastOfAll(s: seq<Tree>)
    requires IsMinHeap(s) && |s| >= 1
    ensures forall y :: y in multiset(s) ==> !IsLessThan(y, s[0])
  {
    forall y | y in multiset(s)
      ensures !IsLessThan(y, s[0])
    {
      var k :| 0 <= k < |s| && s[k] == y;
      RootIsLeast(s, k);
    }
  }

  /** Replacing the root by the last node removes exactly the root from the multiset. */
  lemma RootRemoval(s: seq<Tree>)
    requires |s| >= 2
    ensures multiset(s[..|s| - 1][0 := s[|s| - 1]]) + multiset{s[0]} == multiset(s)
  {
    var n := |s| - 1;
    assert s == [s[0]] + s[1..n] + [s[n]];
    assert s[..n][0 := s[n]] == [s[n]] + s[1..n];
  }

  /** Moving the last node to the root of a heap leaves a defect only at the root. */
  lemma LastToRoot(s: seq<Tree>)
    requires IsMinHeap(s) && |s| >= 2
    ensures HeapExceptAt(s[..|s| - 1][0 := s[|s| - 1]], 0)
  {
  }

  class PriorityQueue {
    var data: array<Tree>
    var size: nat
    var capacity: nat

    /** The storage matches `capacity`, which is never zero, and holds `size` nodes. */
    ghost predicate Valid()
      reads this
    {
      data.Length == capacity && 1 <= capacity && size <= capacity
    }

    /** The nodes in the queue, in array order. */
    ghost function Elements(): seq<Tree>
      reads this, data
      requires Valid()
    {
      data[..size]
    }

    ghost predicate IsHeap()
      reads this, data
      requires Valid()
    {
      IsMinHeap(data[..size])
    }

    /** `create_priority_queue`: an empty queue with room for `cap` nodes. */
    constructor (cap: nat)
      requires cap >= 1
      ensures Valid() && IsHeap()
      ensures size == 0 && capacity == cap && Elements() == []
      ensures fresh(data)
    {
      data := new Tree[cap](_ => Leaf(0, 0));
      size := 0;
      capacity := cap;
    }

    /** `swap_nodes` on two occupied slots. */
    method SwapNodes(i: nat, j: nat)
      requires Valid() && i < size && j < size
      modifies data
      ensures Valid()
      ensures Elements() == Swapped(old(Elements()), i, j)
      ensures forall k :: size <= k < data.Length ==> data[k] == old(data[k])
    {
      data[i], data[j] := data[j], data[i];
    }

    /**
     * `HEAPIFY`: sift the node at `idx` down. It only permutes the first
     * `size` slots and leaves a heap.
     */
    method Heapify(idx: nat)
      requires Valid() && idx < size && HeapExceptAt(Elements(), idx)
      modifies data
      ensures Valid() && IsHeap()
      ensures multiset(Elements()) == old(multiset(Elements()))
      ensures forall k :: size <= k < data.Length ==> data[k] == old(data[k])
      decreases size - idx
    {
      ghost var cur := Elements();
      var l := Left(idx);
      var r := Right(idx);
      var smallest := idx;
      if l < size && IsLessThan(data[l], data[smallest]) {
        smallest := l;
      }
      if r < size && IsLessThan(data[r], data[smallest]) {
        smallest := r;
      }
      assert l < size ==> cur[l] == data[l];
      assert r < size ==> cur[r] == data[r];
      assert cur[idx] == data[idx] && cur[smallest] == data[smallest];
      if smallest != idx {
        SiftDownStep(cur, idx, smallest);
        SwapNodes(idx, smallest);
        Heapify(smallest);
      } else {
        SiftDownDone(cur, idx);
      }
    }

    /** The `realloc` of PQ_INSERT: twice the room, the same nodes. */
    method Grow()
      requires Valid()
      modifies this
      ensures Valid() && fresh(data)
      ensures capacity == 2 * old(capacity) && size == old(size)
      ensures Elements() == old(Elements())
    {
      var grown := new Tree[2 * capacity](_ => Leaf(0, 0));
      forall k | 0 <= k < size {
        grown[k] := data[k];
      }
      assert grown[..size] == data[..size];
      capacity := 2 * capacity;
      data := grown;
    }

    /** The store step of PQ_INSERT: the new node goes into the first free slot. */
    method Append(x: Tree)
      requires Valid() && size < capacity
      modifies this`size, data
      ensures Valid() && size == old(size) + 1
      ensures Elements() == old(Elements()) + [x]
    {
      data[size] := x;
      size := size + 1;
    }

    /**
     * `PQ_INSERT`: add `x`, doubling the storage first when it is full, and
     * sift it up.
     */
    method Insert(x: Tree)
      requires Valid() && IsHeap()
      modifies this, data
      ensures Valid() && IsHeap()
      ensures size == old(size) + 1
      ensures multiset(Elements()) == old(multiset(Elements())) + multiset{x}
      ensures old(size) < old(capacity) ==> capacity == old(capacity) && data == old(data)
      ensures old(size) == old(capacity) ==> capacity == 2 * old(capacity) && fresh(data)
    {
      ghost var elems := Elements();
      if size == capacity {
        Grow();
      }
      var i: nat := size;
      Append(x);
      ghost var store, cap := data, capacity;
      SiftUpStart(elems, x);
      while i != 0 && IsLessThan(data[i], data[Parent(i)])
        invariant Valid() && data == store && capacity == cap
        invariant size == |elems| + 1 && i < size
        invariant multiset(Elements()) == multiset(elems) + multiset{x}
        invariant HeapExceptAbove(Elements(), i)
        decreases i
      {
        var p := Parent(i);
        ghost var cur := Elements();
        assert cur[i] == data[i] && cur[p] == data[p];
        SiftUpStep(cur, i);
        SwapNodes(i, p);
        i := p;
      }
      SiftUpDone(Elements(), i);
    }

    /**
     * `PQ_EXTRACT`: on an empty queue, None and nothing changes; otherwise
     * the root, with the last node moved to the root and sifted down.
     */
    method Extract() returns (r: Option<Tree>)
      requires Valid() && IsHeap()
      modifies this, data
      ensures Valid() && IsHeap()
      ensures data == old(data) && capacity == old(capacity)
      ensures old(size) == 0 ==> r == None && size == 0 && unchanged(data)
      ensures old(size) > 0 ==> r == Some(old(data[0])) && size == old(size) - 1
      ensures old(size) > 0 ==> multiset(Elements()) + multiset{r.value} == old(multiset(Elements()))
      ensures old(size) > 0 ==> forall y :: y in multiset(Elements()) ==> !IsLessThan(y, r.value)
    {
      if size == 0 {
        return None;
      }
      ghost var before := Elements();
      var least := data[0];
      RootIsLeastOfAll(before);
      size := size - 1;
      data[0] := data[size];
      if size > 0 {
        assert Elements() == before[..size][0 := before[size]];
        LastToRoot(before);
        RootRemoval(before);
        Heapify(0);
      } else {
        assert before == [least];
        assert Elements() == [];
      }
      r := Some(least);
    }
  }
}
