/** An optional tree; None stands for a NULL node pointer (PQ_EXTRACT on an empty queue). */
module Options {
  datatype Option<+T> = None | Some(value: T)
}

/**
 * Huffman tree nodes (the BinaryTreeNode record of mp2.c) and the order
 * `is_less_than` that the priority queue uses on them.
 */
module HuffmanTree {

  /** A symbol: the unsigned reading of one byte. */
  type Byte = x: int | 0 <= x < 256

  /**
   * A leaf carries its symbol; an internal node owns both children and
   * records the smallest symbol of its subtree, the tie-break key.
   * Ownership is top-down, so a value type loses no aliasing.
   */
  datatype Tree =
    | Leaf(ch: Byte, freq: int)
    | Node(left: Tree, right: Tree, freq: int, minChar: Byte)

  /** `min_char_in_subtree`: a leaf's is its own symbol. */
  function MinChar(t: Tree): Byte
  {
    match t
    case Leaf(c, _) => c
    case Node(_, _, _, m) => m
  }

  /** `is_less_than`: frequency first, then the tie-break key. */
  predicate IsLessThan(a: Tree, b: Tree)
  {
    if a.freq < b.freq then true
    else if a.freq > b.freq then false
    else MinChar(a) < MinChar(b)
  }

  /** The (freq, minChar) pair that IsLessThan compares lexicographically. */
  predicate KeyLess(f1: int, m1: int, f2: int, m2: int)
  {
    f1 < f2 || (f1 == f2 && m1 < m2)
  }

  lemma IsLessThanIsLexicographic(a: Tree, b: Tree)
    ensures IsLessThan(a, b) <==> KeyLess(a.freq, MinChar(a), b.freq, MinChar(b))
  {
  }

  lemma IsLessThanIrreflexive(a: Tree)
    ensures !IsLessThan(a, a)
  {
  }

  lemma IsLessThanTransitive(a: Tree, b: Tree, c: Tree)
    requires IsLessThan(a, b) && IsLessThan(b, c)
    ensures IsLessThan(a, c)
  {
  }

  /** "Not less than" is transitive too: the order is a strict weak order. */
  lemma NotLessThanTransitive(a: Tree, b: Tree, c: Tree)
    requires !IsLessThan(a, b) && !IsLessThan(b, c)
    ensures !IsLessThan(a, c)
  {
  }

  lemma IsLessThanTotalOnDistinctKeys(a: Tree, b: Tree)
    requires MinChar(a) != MinChar(b)
    ensures IsLessThan(a, b) || IsLessThan(b, a)
  {
  }

  function Min(x: Byte, y: Byte): Byte
  {
    if x < y then x else y
  }

  /** The symbols at the leaves of a tree. */
  function SymbolSet(t: Tree): set<Byte>
  {
    match t
    case Leaf(c, _) => {c}
    case Node(l, r, _, _) => SymbolSet(l) + SymbolSet(r)
  }

  /** The leaves in depth-first, left-before-right order. */
  function LeafSeq(t: Tree): (s: seq<Tree>)
    ensures |s| >= 1
    ensures forall i :: 0 <= i < |s| ==> s[i].Leaf? && s[i].ch in SymbolSet(t)
    ensures t.Node? ==> |s| >= 2
  {
    match t
    case Leaf(_, _) => [t]
    case Node(l, r, _, _) => LeafSeq(l) + LeafSeq(r)
  }

  function Height(t: Tree): nat
  {
    match t
    case Leaf(_, _) => 0
    case Node(l, r, _, _) => 1 + (if Height(l) < Height(r) then Height(r) else Height(l))
  }

  function InternalCount(t: Tree): nat
  {
    match t
    case Leaf(_, _) => 0
    case Node(l, r, _, _) => 1 + InternalCount(l) + InternalCount(r)
  }

  /**
   * The data-model invariant: positive leaf counts, an internal node's
   * frequency is its children's sum and its key the smaller of theirs.
   */
  ghost predicate WellFormed(t: Tree)
  {
    match t
    case Leaf(_, f) => f >= 1
    case Node(l, r, f, m) =>
      WellFormed(l) && WellFormed(r) && f == l.freq + r.freq && m == Min(MinChar(l), MinChar(r))
  }

  /** No symbol appears at two leaves. */
  ghost predicate DistinctLeaves(t: Tree)
  {
    match t
    case Leaf(_, _) => true
    case Node(l, r, _, _) => DistinctLeaves(l) && DistinctLeaves(r) && SymbolSet(l) !! SymbolSet(r)
  }

  /**
   * The parent node of BUILD_HUFFMAN_TREE's loop: a fresh internal node over two
   * extracted nodes, the first one on the left.
   */
  function Merge(a: Tree, b: Tree): (r: Tree)
    ensures r.Node? && r.left == a && r.right == b
    ensures SymbolSet(r) == SymbolSet(a) + SymbolSet(b)
    ensures LeafSeq(r) == LeafSeq(a) + LeafSeq(b)
    ensures WellFormed(a) && WellFormed(b) ==> WellFormed(r)
    ensures DistinctLeaves(a) && DistinctLeaves(b) && SymbolSet(a) !! SymbolSet(b) ==> DistinctLeaves(r)
  {
    Node(a, b, a.freq + b.freq, if MinChar(a) < MinChar(b) then MinChar(a) else MinChar(b))
  }

  /** The tie-break key of a well-formed tree is the least symbol in it. */
  lemma {:induction false} MinCharIsLeast(t: Tree)
    requires WellFormed(t)
    ensures MinChar(t) in SymbolSet(t)
    ensures forall s :: s in SymbolSet(t) ==> MinChar(t) <= s
  {
    match t
    case Leaf(_, _) =>
    case Node(l, r, _, _) =>
      MinCharIsLeast(l);
      MinCharIsLeast(r);
  }

  /** Two well-formed trees over disjoint symbols never tie on the key. */
  lemma DisjointTreesHaveDistinctKeys(a: Tree, b: Tree)
    requires WellFormed(a) && WellFormed(b) && SymbolSet(a) !! SymbolSet(b)
    ensures MinChar(a) != MinChar(b)
    ensures IsLessThan(a, b) || IsLessThan(b, a)
  {
    MinCharIsLeast(a);
    MinCharIsLeast(b);
  }

  /** With distinct leaves, two positions of the leaf order hold different symbols. */
  lemma {:induction false} DistinctLeavesHaveDistinctSymbols(t: Tree, i: nat, j: nat)
    requires DistinctLeaves(t)
    requires i < j < |LeafSeq(t)|
    ensures LeafSeq(t)[i].ch != LeafSeq(t)[j].ch
  {
    match t
    case Leaf(_, _) =>
    case Node(l, r, _, _) =>
      var n := |LeafSeq(l)|;
      if j < n {
        DistinctLeavesHaveDistinctSymbols(l, i, j);
      } else if n <= i {
        DistinctLeavesHaveDistinctSymbols(r, i - n, j - n);
      } else {
        assert LeafSeq(t)[i] == LeafSeq(l)[i];
        assert LeafSeq(t)[j] == LeafSeq(r)[j - n];
      }
  }

  /** A full binary tree: k leaves, k - 1 internal nodes (one per merge). */
  lemma {:induction false} InternalCountIsLeavesMinusOne(t: Tree)
    ensures InternalCount(t) == |LeafSeq(t)| - 1
  {
    match t
    case Leaf(_, _) =>
    case Node(l, r, _, _) =>
      InternalCountIsLeavesMinusOne(l);
      InternalCountIsLeavesMinusOne(r);
  }

  /** The depth of a tree is below its leaf count, so codes are shorter than the symbol count. */
  lemma {:induction false} HeightBelowLeafCount(t: Tree)
    ensures Height(t) < |LeafSeq(t)|
  {
    match t
    case Leaf(_, _) =>
    case Node(l, r, _, _) =>
      HeightBelowLeafCount(l);
      HeightBelowLeafCount(r);
  }

  function SumFreq(s: seq<Tree>): int
  {
    if s == [] then 0 else s[0].freq + SumFreq(s[1..])
  }

  lemma {:induction false} SumFreqAppend(a: seq<Tree>, b: seq<Tree>)
    ensures SumFreq(a + b) == SumFreq(a) + SumFreq(b)
  {
    if a == [] {
      assert a + b == b;
    } else {
      assert (a + b)[1..] == a[1..] + b;
      SumFreqAppend(a[1..], b);
    }
  }

  /** A well-formed tree's frequency is the total count of its leaves. */
  lemma {:induction false} FreqIsLeafTotal(t: Tree)
    requires WellFormed(t)
    ensures t.freq == SumFreq(LeafSeq(t))
    ensures t.freq >= |LeafSeq(t)|
  {
    match t
    case Leaf(_, _) =>
      assert LeafSeq(t)[1..] == [];
    case Node(l, r, _, _) =>
      FreqIsLeafTotal(l);
      FreqIsLeafTotal(r);
      SumFreqAppend(LeafSeq(l), LeafSeq(r));
  }
}
