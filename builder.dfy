/**
 * BUILD_HUFFMAN_TREE of mp2.c: the greedy merge loop over the priority
 * queue, proved against a reference definition on the multiset of queued
 * nodes.
 */
module HuffmanBuilder {
  import opened Options
  import opened HuffmanTree
  import opened PriorityQueues

  /**
   * The invariant of the queue's contents: well-formed trees with distinct
   * leaves, none queued twice, and no symbol shared between two of them.
   */
  ghost predicate Forest(m: multiset<Tree>)
  {
    && (forall t :: t in m ==> WellFormed(t) && DistinctLeaves(t) && m[t] == 1)
    && (forall s, t :: s in m && t in m && s != t ==> SymbolSet(s) !! SymbolSet(t))
  }

  /** `x` is an element of `m` that no element of `m` is less than. */
  ghost predicate IsLeastIn(x: Tree, m: multiset<Tree>)
  {
    x in m && forall y :: y in m ==> !IsLessThan(y, x)
  }

  /** Every leaf of every tree in `m`. */
  ghost function LeafSetOf(m: multiset<Tree>): set<Tree>
  {
    set t, z | t in m && z in LeafSeq(t) :: z
  }

  lemma {:induction false} LeastExists(m: multiset<Tree>)
    requires m != multiset{}
    ensures exists x :: IsLeastIn(x, m)
    decreases |m|
  {
    var z :| z in m;
    var rest := m - multiset{z};
    if rest == multiset{} {
      assert m == rest + multiset{z};
      assert IsLeastIn(z, m);
    } else {
      LeastExists(rest);
      var x :| IsLeastIn(x, rest);
      if IsLessThan(z, x) {
        forall y | y in m
          ensures !IsLessThan(y, z)
        {
          if y != z {
            assert y in rest;
          }
        }
        assert IsLeastIn(z, m);
      } else {
        forall y | y in m
          ensures !IsLessThan(y, x)
        {
          if y != z {
            assert y in rest;
          }
        }
        assert IsLeastIn(x, m);
      }
    }
  }

  /** What PQ_EXTRACT promises, restated: the extracted node is least in the old multiset. */
  lemma LeastOfRest(m: multiset<Tree>, rest: multiset<Tree>, x: Tree)
    requires rest + multiset{x} == m
    requires forall y :: y in rest ==> !IsLessThan(y, x)
    ensures IsLeastIn(x, m) && rest == m - multiset{x}
  {
    forall y | y in m
      ensures !IsLessThan(y, x)
    {
      if y != x {
        assert y in rest;
      }
    }
  }

  /** A least element of a non-empty multiset (the one PQ_EXTRACT returns). */
  ghost function Least(m: multiset<Tree>): (x: Tree)
    requires m != multiset{}
    ensures IsLeastIn(x, m)
  {
    LeastExists(m);
    var x :| IsLeastIn(x, m); x
  }

  /** In a forest the keys differ, so the least element is unique. */
  lemma LeastIsUnique(m: multiset<Tree>, x: Tree)
    requires Forest(m) && IsLeastIn(x, m)
    ensures x == Least(m)
  {
    var y := Least(m);
    if x != y {
      DisjointTreesHaveDistinctKeys(x, y);
    }
  }

  lemma ForestWithout(m: multiset<Tree>, x: Tree)
    requires Forest(m)
    ensures Forest(m - multiset{x})
  {
  }

  /** Replacing two distinct queued trees by their merge keeps the invariant. */
  lemma MergeKeepsForest(m: multiset<Tree>, a: Tree, b: Tree)
    requires Forest(m) && a in m && b in m - multiset{a}
    ensures Forest(m - multiset{a} - multiset{b} + multiset{Merge(a, b)})
  {
    var rest := m - multiset{a} - multiset{b};
    var p := Merge(a, b);
    assert a != b;
    MinCharIsLeast(a);
    forall t | t in rest
      ensures t != a && t != b && SymbolSet(t) !! SymbolSet(p) && t != p
    {
      assert SymbolSet(t) !! SymbolSet(a);
    }
  }

  lemma MergeKeepsLeaves(m: multiset<Tree>, a: Tree, b: Tree)
    requires a in m && b in m - multiset{a}
    ensures LeafSetOf(m - multiset{a} - multiset{b} + multiset{Merge(a, b)}) == LeafSetOf(m)
  {
    var m' := m - multiset{a} - multiset{b} + multiset{Merge(a, b)};
    forall z | z in LeafSetOf(m)
      ensures z in LeafSetOf(m')
    {
      var t :| t in m && z in LeafSeq(t);
      if t == a || t == b {
        assert z in LeafSeq(Merge(a, b));
      } else {
        assert t in m';
      }
    }
    forall z | z in LeafSetOf(m')
      ensures z in LeafSetOf(m)
    {
      var t :| t in m' && z in LeafSeq(t);
      if t != Merge(a, b) {
        assert t in m;
      } else if z in LeafSeq(a) {
        assert a in m;
      } else {
        assert b in m;
      }
    }
  }

  lemma SingletonMultiset(m: multiset<Tree>, a: Tree)
    requires |m| == 1 && a in m
    ensures m == multiset{a}
  {
    assert |m - multiset{a}| == 0;
    assert m == (m - multiset{a}) + multiset{a};
  }

  /**
   * What BUILD_HUFFMAN_TREE computes from the multiset of queued nodes:
   * while more than one is left, merge the least (on the left) with the
   * next least.
   */
  ghost function Huffman(m: multiset<Tree>): Tree
    requires m != multiset{} && Forest(m)
    decreases |m|
  {
    var a := Least(m);
    if |m| == 1 then a
    else
      var rest := m - multiset{a};
      assert |rest| == |m| - 1;
      var b := Least(rest);
      MergeKeepsForest(m, a, b);
      Huffman(rest - multiset{b} + multiset{Merge(a, b)})
  }

  lemma HuffmanOfOne(m: multiset<Tree>)
    requires |m| == 1 && Forest(m)
    ensures Huffman(m) in m
  {
  }

  /**
   * Two queued trees: the lesser (by frequency, then by smallest symbol)
   * becomes the left child, so it gets the '0' branch.
   */
  lemma HuffmanOfTwo(x: Tree, y: Tree)
    requires Forest(multiset{x, y}) && IsLessThan(x, y)
    ensures Huffman(multiset{x, y}) == Merge(x, y)
  {
    var m := multiset{x, y};
    assert x != y;
    assert IsLeastIn(x, m);
    LeastIsUnique(m, x);
    assert m - multiset{x} == multiset{y};
    assert multiset{y} - multiset{y} + multiset{Merge(x, y)} == multiset{Merge(x, y)};
  }

  /**
   * The built tree is well formed, has distinct leaves, whose set is that of
   * all queued trees, and is an internal node when two or more were queued.
   */
  lemma {:induction false} HuffmanIsCodeTree(m: multiset<Tree>)
    requires m != multiset{} && Forest(m)
    ensures WellFormed(Huffman(m)) && DistinctLeaves(Huffman(m))
    ensures forall z :: z in LeafSeq(Huffman(m)) <==> z in LeafSetOf(m)
    ensures |m| == 1 ==> Huffman(m) in m
    ensures |m| >= 2 ==> Huffman(m).Node?
    decreases |m|
  {
    var a := Least(m);
    if |m| == 1 {
      SingletonMultiset(m, a);
      forall z
        ensures z in LeafSeq(a) <==> z in LeafSetOf(m)
      {
        if z in LeafSetOf(m) {
          var t :| t in m && z in LeafSeq(t);
          assert t == a;
        }
      }
    } else {
      var rest := m - multiset{a};
      assert |rest| == |m| - 1;
      var b := Least(rest);
      var m' := rest - multiset{b} + multiset{Merge(a, b)};
      MergeKeepsForest(m, a, b);
      MergeKeepsLeaves(m, a, b);
      HuffmanIsCodeTree(m');
      if |m'| >= 2 {
      } else {
        assert m' == multiset{Merge(a, b)};
      }
    }
  }

  /**
   * One turn of the merge loop: extracting the least node, then the least of
   * the rest, and queueing their merge leaves the reference result as it was.
   */
  lemma MergeStep(m: multiset<Tree>, a: Tree, b: Tree)
    requires Forest(m) && |m| >= 2
    requires IsLeastIn(a, m) && IsLeastIn(b, m - multiset{a})
    ensures Forest(m - multiset{a} - multiset{b} + multiset{Merge(a, b)})
    ensures Huffman(m - multiset{a} - multiset{b} + multiset{Merge(a, b)}) == Huffman(m)
  {
    LeastIsUnique(m, a);
    ForestWithout(m, a);
    LeastIsUnique(m - multiset{a}, b);
    MergeKeepsForest(m, a, b);
  }

  /**
   * The body of the merge loop: extract two nodes, queue their merge with
   * the first one on the left.
   */
  method MergeTwoLeast(q: PriorityQueue) returns (ghost a: Tree, ghost b: Tree)
    requires q.Valid() && q.IsHeap() && q.size >= 2
    modifies q, q.data
    ensures q.Valid() && q.IsHeap() && q.size == old(q.size) - 1
    ensures q.data == old(q.data) || fresh(q.data)
    ensures IsLeastIn(a, old(multiset(q.Elements())))
    ensures IsLeastIn(b, old(multiset(q.Elements())) - multiset{a})
    ensures multiset(q.Elements()) == old(multiset(q.Elements())) - multiset{a} - multiset{b} + multiset{Merge(a, b)}
  {
    ghost var m := multiset(q.Elements());
    var leftChild := q.Extract();
    ghost var m1 := multiset(q.Elements());
    a := leftChild.value;
    LeastOfRest(m, m1, a);
    var rightChild := q.Extract();
    b := rightChild.value;
    LeastOfRest(m1, multiset(q.Elements()), b);
    var parentNode := Merge(leftChild.value, rightChild.value);
    q.Insert(parentNode);
  }

  /**
   * BUILD_HUFFMAN_TREE: None for an empty queue; otherwise k - 1 merges of
   * the two least nodes leave one tree, which is returned, and the queue
   * is empty.
   */
  method BuildHuffmanTree(q: PriorityQueue) returns (root: Option<Tree>, ghost merges: nat)
    requires q.Valid() && q.IsHeap() && Forest(multiset(q.Elements()))
    modifies q, q.data
    ensures q.Valid() && q.IsHeap() && q.size == 0
    ensures old(q.size) == 0 <==> root == None
    ensures root.Some? ==> root.value == Huffman(old(multiset(q.Elements())))
    ensures merges == if old(q.size) == 0 then 0 else old(q.size) - 1
  {
    merges := 0;
    if q.size == 0 {
      return None, 0;
    }
    ghost var m0 := multiset(q.Elements());
    ghost var m := m0;
    while q.size > 1
      invariant q.Valid() && q.IsHeap() && q.size >= 1
      invariant q.data == old(q.data) || fresh(q.data)
      invariant multiset(q.Elements()) == m && |m| == q.size
      invariant Forest(m) && Huffman(m) == Huffman(m0)
      invariant merges + q.size == old(q.size)
      decreases q.size
    {
      ghost var a, b := MergeTwoLeast(q);
      MergeStep(m, a, b);
      m := m - multiset{a} - multiset{b} + multiset{Merge(a, b)};
      merges := merges + 1;
    }
    root := q.Extract();
    SingletonMultiset(m, root.value);
    HuffmanOfOne(m);
  }
}
