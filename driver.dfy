/**
 * The core of mp2.c's main: count the bytes before the first ';', queue
 * one leaf per byte value seen, build the tree, and produce the code table
 * sorted by code. Reading standard input and printing the table are left
 * to the caller: the input is a byte sequence, the table is returned.
 */
module HuffmanMain {
  import opened Options
  import opened HuffmanTree
  import opened PriorityQueues
  import opened HuffmanBuilder
  import opened CodeExtraction
  import opened CodeTable

  /** MAX_CHARS: one counter per byte value. */
  const MaxChars: nat := 256

  /** The byte ';' that ends the input. */
  const Terminator: Byte := 59

  /** What the counting loop consumes: the input up to, not including, the first ';'. */
  function Scanned(input: seq<Byte>): (s: seq<Byte>)
    ensures s <= input && Terminator !in s
    ensures |s| < |input| ==> input[|s|] == Terminator
  {
    if input == [] || input[0] == Terminator then []
    else
      var rest := Scanned(input[1..]);
      assert input == [input[0]] + input[1..];
      [input[0]] + rest
  }

  /** The three properties above pin the scanned part down. */
  lemma ScannedIsUnique(input: seq<Byte>, p: seq<Byte>)
    requires p <= input && Terminator !in p
    requires |p| < |input| ==> input[|p|] == Terminator
    ensures p == Scanned(input)
  {
    var s := Scanned(input);
    assert forall k :: 0 <= k < |s| ==> input[k] != Terminator by {
      forall k | 0 <= k < |s|
        ensures input[k] != Terminator
      {
        assert input[k] == s[k];
      }
    }
    assert forall k :: 0 <= k < |p| ==> input[k] != Terminator by {
      forall k | 0 <= k < |p|
        ensures input[k] != Terminator
      {
        assert input[k] == p[k];
      }
    }
    assert |p| == |s|;
    assert p == input[..|p|] && s == input[..|s|];
  }

  /** The distinct byte values of a sequence. */
  ghost function Symbols(s: seq<Byte>): set<Byte>
  {
    set x | x in s
  }

  lemma NoSymbolsMeansEmpty(s: seq<Byte>)
    ensures Symbols(s) == {} <==> s == []
  {
    if s != [] {
      assert s[0] in Symbols(s);
    }
  }

  /** Appending c adds c to the symbols and grows their number iff c was new. */
  lemma CountStep(p: seq<Byte>, c: Byte)
    ensures multiset(p + [c]) == multiset(p) + multiset{c}
    ensures c in Symbols(p) <==> multiset(p)[c] > 0
    ensures |Symbols(p + [c])| == |Symbols(p)| + (if c in Symbols(p) then 0 else 1)
  {
    assert Symbols(p + [c]) == Symbols(p) + {c};
    if c !in Symbols(p) {
      assert |Symbols(p) + {c}| == |Symbols(p)| + 1;
    } else {
      assert Symbols(p) + {c} == Symbols(p);
    }
  }

  /** The freq array once the counting loop is done. */
  ghost function Frequencies(input: seq<Byte>): seq<int>
  {
    seq(MaxChars, (b: int) requires 0 <= b < MaxChars => multiset(Scanned(input))[b as Byte])
  }

  /**
   * The counting loop of main in mp2.c. freq[b] becomes the number of b's
   * before the first ';', and unique_char_count the number of distinct
   * byte values among them.
   */
  method CountFrequencies(input: seq<Byte>) returns (freq: seq<int>, unique: nat)
    ensures freq == Frequencies(input)
    ensures unique == |Symbols(Scanned(input))|
  {
    var counts := new int[MaxChars](_ => 0);
    unique := 0;
    var i := 0;
    assert input[..0] == [];
    while i < |input| && input[i] != Terminator
      invariant i <= |input| && Terminator !in input[..i]
      invariant forall b :: 0 <= b < MaxChars ==> counts[b] == multiset(input[..i])[b]
      invariant unique == |Symbols(input[..i])|
    {
      var c := input[i];
      assert input[..i + 1] == input[..i] + [c];
      CountStep(input[..i], c);
      if counts[c] == 0 {
        unique := unique + 1;
      }
      counts[c] := counts[c] + 1;
      i := i + 1;
    }
    ScannedIsUnique(input, input[..i]);
    freq := counts[..];
  }

  /** The leaves main queues from freq[0..n): one per byte value with a positive count, in order. */
  function LeavesBelow(freq: seq<int>, n: nat): (s: seq<Tree>)
    requires n <= |freq| <= MaxChars
    ensures |s| <= n
    ensures forall i :: 0 <= i < |s| ==> s[i].Leaf? && s[i].ch < n && s[i].freq == freq[s[i].ch] > 0
    ensures forall i, j :: 0 <= i < j < |s| ==> s[i].ch < s[j].ch
  {
    if n == 0 then []
    else LeavesBelow(freq, n - 1) + (if freq[n - 1] > 0 then [Leaf(n - 1, freq[n - 1])] else [])
  }

  lemma {:induction false} LeafIsQueued(freq: seq<int>, n: nat, b: Byte)
    requires n <= |freq| <= MaxChars && b < n && freq[b] > 0
    ensures Leaf(b, freq[b]) in LeavesBelow(freq, n)
  {
    if b < n - 1 {
      LeafIsQueued(freq, n - 1, b);
    }
  }

  lemma {:induction false} LeavesBelowIsPrefix(freq: seq<int>, i: nat, n: nat)
    requires i <= n <= |freq| <= MaxChars
    ensures LeavesBelow(freq, i) <= LeavesBelow(freq, n)
    decreases n
  {
    if i < n {
      LeavesBelowIsPrefix(freq, i, n - 1);
    }
  }

  /** The byte values below n with a positive count. */
  ghost function PositiveBelow(freq: seq<int>, n: nat): set<Byte>
    requires n <= |freq| <= MaxChars
  {
    set b: Byte | b < n && freq[b] > 0
  }

  /** PositiveBelow grows by n - 1 exactly when freq[n - 1] is positive. */
  lemma PositiveBelowStep(freq: seq<int>, n: nat)
    requires 0 < n <= |freq| <= MaxChars
    ensures freq[n - 1] > 0 ==> PositiveBelow(freq, n) == PositiveBelow(freq, n - 1) + {n - 1}
    ensures freq[n - 1] > 0 ==> n - 1 !in PositiveBelow(freq, n - 1)
    ensures freq[n - 1] <= 0 ==> PositiveBelow(freq, n) == PositiveBelow(freq, n - 1)
  {
    var b: Byte := n - 1;
    if freq[b] > 0 {
      assert PositiveBelow(freq, n) == PositiveBelow(freq, n - 1) + {b};
    } else {
      assert PositiveBelow(freq, n) == PositiveBelow(freq, n - 1);
    }
  }

  lemma {:induction false} LeavesBelowCount(freq: seq<int>, n: nat)
    requires n <= |freq| <= MaxChars
    ensures |LeavesBelow(freq, n)| == |PositiveBelow(freq, n)|
  {
    if n == 0 {
      assert PositiveBelow(freq, n) == {};
    } else {
      LeavesBelowCount(freq, n - 1);
      PositiveBelowStep(freq, n);
    }
  }

  /** The queued leaves for freq[0..n) are those for freq[0..n-1) and the leaf for n - 1, if any. */
  lemma LeavesBelowStep(freq: seq<int>, n: nat)
    requires 0 < n <= |freq| <= MaxChars
    ensures freq[n - 1] > 0 ==>
      multiset(LeavesBelow(freq, n)) == multiset(LeavesBelow(freq, n - 1)) + multiset{Leaf(n - 1, freq[n - 1])}
    ensures freq[n - 1] <= 0 ==> LeavesBelow(freq, n) == LeavesBelow(freq, n - 1)
  {
    if freq[n - 1] > 0 {
      assert LeavesBelow(freq, n) == LeavesBelow(freq, n - 1) + [Leaf(n - 1, freq[n - 1])];
    } else {
      assert LeavesBelow(freq, n) == LeavesBelow(freq, n - 1) + [];
    }
  }

  /** The queued leaves are a forest: distinct single-symbol trees. */
  lemma LeavesAreForest(freq: seq<int>, n: nat)
    requires n <= |freq| <= MaxChars
    ensures Forest(multiset(LeavesBelow(freq, n)))
  {
    var s := LeavesBelow(freq, n);
    assert NoDuplicates(s);
    forall t | t in multiset(s)
      ensures WellFormed(t) && DistinctLeaves(t) && multiset(s)[t] == 1
    {
      NoDuplicatesCountsOnce(s, t);
    }
    forall x, y | x in multiset(s) && y in multiset(s) && x != y
      ensures SymbolSet(x) !! SymbolSet(y)
    {
      assert x in s && y in s;
    }
  }

  /**
   * The queueing loop of main: a queue with room for one node per symbol, holding one
   * leaf per byte value with a positive count. The queue never grows when
   * `unique` is that count.
   */
  method BuildQueue(freq: seq<int>, unique: nat) returns (q: PriorityQueue)
    requires |freq| == MaxChars
    ensures fresh(q) && fresh(q.data)
    ensures q.Valid() && q.IsHeap()
    ensures multiset(q.Elements()) == multiset(LeavesBelow(freq, MaxChars))
    ensures 0 < unique == |LeavesBelow(freq, MaxChars)| ==> q.capacity == unique
  {
    q := new PriorityQueue(if unique > 0 then unique else 16);
    var i := 0;
    while i < MaxChars
      invariant i <= MaxChars
      invariant fresh(q) && fresh(q.data)
      invariant q.Valid() && q.IsHeap()
      invariant multiset(q.Elements()) == multiset(LeavesBelow(freq, i))
      invariant q.size == |LeavesBelow(freq, i)|
      invariant 0 < unique == |LeavesBelow(freq, MaxChars)| ==> q.capacity == unique
    {
      LeavesBelowIsPrefix(freq, i + 1, MaxChars);
      QueueLeaf(q, freq, i);
      i := i + 1;
    }
  }

  /** One turn of main's queueing loop: queue the leaf of byte value i if it occurs. */
  method QueueLeaf(q: PriorityQueue, freq: seq<int>, i: nat)
    requires |freq| == MaxChars && i < MaxChars
    requires q.Valid() && q.IsHeap() && multiset(q.Elements()) == multiset(LeavesBelow(freq, i))
    modifies q, q.data
    ensures q.Valid() && q.IsHeap()
    ensures multiset(q.Elements()) == multiset(LeavesBelow(freq, i + 1))
    ensures q.size == |LeavesBelow(freq, i + 1)|
    ensures q.data == old(q.data) || fresh(q.data)
    ensures old(q.size) < old(q.capacity) || freq[i] <= 0 ==> q.capacity == old(q.capacity)
  {
    LeavesBelowStep(freq, i + 1);
    if freq[i] > 0 {
      q.Insert(Leaf(i, freq[i]));
    }
    assert |multiset(q.Elements())| == |q.Elements()|;
  }

  /** The queued leaves of an input. */
  ghost function QueuedLeaves(input: seq<Byte>): seq<Tree>
  {
    LeavesBelow(Frequencies(input), MaxChars)
  }

  /** The positive counts are exactly those of the scanned bytes. */
  lemma PositiveAreSymbols(input: seq<Byte>)
    ensures PositiveBelow(Frequencies(input), MaxChars) == Symbols(Scanned(input))
  {
  }

  lemma QueuedLeavesCount(input: seq<Byte>)
    ensures |QueuedLeaves(input)| == |Symbols(Scanned(input))|
  {
    LeavesBelowCount(Frequencies(input), MaxChars);
    PositiveAreSymbols(input);
  }

  lemma QueuedLeavesCover(input: seq<Byte>)
    ensures forall b :: b in Scanned(input) ==> Leaf(b, multiset(Scanned(input))[b]) in QueuedLeaves(input)
  {
    forall b | b in Scanned(input)
      ensures Leaf(b, multiset(Scanned(input))[b]) in QueuedLeaves(input)
    {
      LeafIsQueued(Frequencies(input), MaxChars, b);
    }
  }

  lemma QueuedLeavesAreScanned(input: seq<Byte>)
    ensures forall t :: t in QueuedLeaves(input) ==>
              t.Leaf? && t.ch in Scanned(input) && t.freq == multiset(Scanned(input))[t.ch]
  {
    var s := QueuedLeaves(input);
    forall t | t in s
      ensures t.Leaf? && t.ch in Scanned(input) && t.freq == multiset(Scanned(input))[t.ch]
    {
      var k :| 0 <= k < |s| && s[k] == t;
    }
  }

  /** One leaf per distinct scanned byte, counting its occurrences. */
  lemma QueuedLeavesAreSymbols(input: seq<Byte>)
    ensures Forest(multiset(QueuedLeaves(input)))
    ensures |QueuedLeaves(input)| == |Symbols(Scanned(input))|
    ensures forall b :: b in Scanned(input) ==> Leaf(b, multiset(Scanned(input))[b]) in QueuedLeaves(input)
    ensures forall t :: t in QueuedLeaves(input) ==>
              t.Leaf? && t.ch in Scanned(input) && t.freq == multiset(Scanned(input))[t.ch]
  {
    LeavesAreForest(Frequencies(input), MaxChars);
    QueuedLeavesCount(input);
    QueuedLeavesCover(input);
    QueuedLeavesAreScanned(input);
  }

  /** The tree BUILD_HUFFMAN_TREE returns for an input with at least one symbol. */
  ghost function HuffmanOf(input: seq<Byte>): Tree
    requires Scanned(input) != []
  {
    QueuedLeavesAreSymbols(input);
    assert Scanned(input)[0] in Scanned(input);
    Huffman(multiset(QueuedLeaves(input)))
  }

  /**
   * The table main prints, in order: nothing for no symbols, code "0" for
   * a single symbol, otherwise the tree's codes sorted by code.
   */
  ghost function CodeTableOf(input: seq<Byte>): seq<CodeEntry>
  {
    var s := Scanned(input);
    if s == [] then []
    else if |Symbols(s)| == 1 then [CodeEntry(s[0], "0")]
    else SortByCode(TreeCodesOf(input))
  }

  /** The entries generate_codes_recursive emits for an input, before sorting. */
  ghost function TreeCodesOf(input: seq<Byte>): seq<CodeEntry>
    requires Scanned(input) != []
  {
    CodesFrom(HuffmanOf(input), [])
  }

  lemma SingletonSet(x: set<Byte>, a: Byte, b: Byte)
    requires |x| == 1 && a in x && b in x
    ensures a == b
  {
    assert x - {a} == {} by {
      assert |x - {a}| == 0;
    }
    assert b in x - {a} <==> a != b;
  }

  lemma {:induction false} AllOneSymbol(s: seq<Byte>, c: Byte)
    requires forall k :: 0 <= k < |s| ==> s[k] == c
    ensures multiset(s)[c] == |s|
  {
    if s != [] {
      assert s == [c] + s[1..];
      AllOneSymbol(s[1..], c);
    }
  }

  /** With one distinct symbol the tree is a single leaf counting every scanned byte. */
  lemma SingleSymbolTree(input: seq<Byte>)
    requires |Symbols(Scanned(input))| == 1
    ensures Scanned(input) != []
    ensures HuffmanOf(input) == Leaf(Scanned(input)[0], |Scanned(input)|)
  {
    var s := Scanned(input);
    NoSymbolsMeansEmpty(s);
    QueuedLeavesAreSymbols(input);
    var m := multiset(QueuedLeaves(input));
    HuffmanIsCodeTree(m);
    var t := HuffmanOf(input);
    assert t in QueuedLeaves(input);
    SingletonSet(Symbols(s), t.ch, s[0]);
    forall k | 0 <= k < |s|
      ensures s[k] == s[0]
    {
      SingletonSet(Symbols(s), s[k], s[0]);
    }
    AllOneSymbol(s, s[0]);
  }

  lemma {:induction false} DistinctCard<T>(s: seq<T>)
    requires NoDuplicates(s)
    ensures |set x | x in s| == |s|
  {
    if s != [] {
      var rest := s[1..];
      assert NoDuplicates(rest) by {
        forall i, j | 0 <= i < j < |rest|
          ensures rest[i] != rest[j]
        {
          assert rest[i] == s[i + 1] && rest[j] == s[j + 1];
        }
      }
      DistinctCard(rest);
      assert s[0] !in rest by {
        forall k | 0 <= k < |rest|
          ensures rest[k] != s[0]
        {
          assert rest[k] == s[k + 1];
        }
      }
      assert (set x | x in s) == (set x | x in rest) + {s[0]} by {
        assert s == [s[0]] + rest;
      }
    }
  }

  lemma SameElementsSameLength<T>(a: seq<T>, b: seq<T>)
    requires NoDuplicates(a) && NoDuplicates(b)
    requires forall z :: z in a <==> z in b
    ensures |a| == |b|
  {
    DistinctCard(a);
    DistinctCard(b);
    assert (set x | x in a) == (set x | x in b);
  }

  /** A sequence of leaves holds exactly the leaves of its trees. */
  lemma LeafSetOfLeaves(leaves: seq<Tree>)
    requires forall t :: t in leaves ==> t.Leaf?
    ensures forall z :: z in LeafSetOf(multiset(leaves)) <==> z in leaves
  {
    forall z | z in leaves
      ensures z in LeafSetOf(multiset(leaves))
    {
      assert z in LeafSeq(z);
    }
  }

  /** Leaves of one tree with distinct leaves are pairwise different. */
  lemma LeavesOfTreeDiffer(t: Tree)
    requires DistinctLeaves(t)
    ensures NoDuplicates(LeafSeq(t))
  {
    forall i, j | 0 <= i < j < |LeafSeq(t)|
      ensures LeafSeq(t)[i] != LeafSeq(t)[j]
    {
      DistinctLeavesHaveDistinctSymbols(t, i, j);
    }
  }

  /**
   * The built tree has one leaf per distinct symbol, each counting that
   * symbol's occurrences, so its depth and its codes fit the 256-entry
   * buffers of main; with two symbols or more it is an internal node.
   */
  lemma HuffmanOfFits(input: seq<Byte>)
    requires Scanned(input) != []
    ensures |LeafSeq(HuffmanOf(input))| == |Symbols(Scanned(input))| <= MaxChars
    ensures Height(HuffmanOf(input)) < |Symbols(Scanned(input))|
    ensures DistinctLeaves(HuffmanOf(input)) && WellFormed(HuffmanOf(input))
    ensures forall z :: z in LeafSeq(HuffmanOf(input)) <==> z in QueuedLeaves(input)
    ensures |Symbols(Scanned(input))| >= 2 ==> HuffmanOf(input).Node?
  {
    var t := HuffmanOf(input);
    QueuedLeavesAreSymbols(input);
    TreeLeavesAreQueued(input);
    LeavesOfTreeDiffer(t);
    QueuedLeavesDiffer(input);
    SameElementsSameLength(LeafSeq(t), QueuedLeaves(input));
    HeightBelowLeafCount(t);
  }

  /** The built tree's leaves are exactly the queued leaves. */
  lemma TreeLeavesAreQueued(input: seq<Byte>)
    requires Scanned(input) != []
    ensures DistinctLeaves(HuffmanOf(input)) && WellFormed(HuffmanOf(input))
    ensures forall z :: z in LeafSeq(HuffmanOf(input)) <==> z in QueuedLeaves(input)
    ensures |QueuedLeaves(input)| >= 2 ==> HuffmanOf(input).Node?
  {
    var leaves := QueuedLeaves(input);
    QueuedLeavesAreSymbols(input);
    HuffmanIsCodeTree(multiset(leaves));
    LeafSetOfLeaves(leaves);
  }

  lemma QueuedLeavesDiffer(input: seq<Byte>)
    ensures NoDuplicates(QueuedLeaves(input))
  {
    var leaves := QueuedLeaves(input);
    forall i, j | 0 <= i < j < |leaves|
      ensures leaves[i] != leaves[j]
    {
      assert leaves[i].ch < leaves[j].ch;
    }
  }

  /** main's queueing loop and its call of BUILD_HUFFMAN_TREE: queue the leaves and build the tree. */
  method PlantTree(ghost input: seq<Byte>, freq: seq<int>, unique: nat) returns (root: Tree)
    requires freq == Frequencies(input) && 0 < unique == |Symbols(Scanned(input))|
    ensures Scanned(input) != [] && root == HuffmanOf(input)
  {
    NoSymbolsMeansEmpty(Scanned(input));
    QueuedLeavesAreSymbols(input);
    var q := BuildQueue(freq, unique);
    var tree, merges := BuildHuffmanTree(q);
    root := tree.value;
  }

  /**
   * The code-generation step of main: the single symbol gets code "0"; otherwise the codes come
   * from the traversal, into 256-entry buffers.
   */
  method CodesOf(root: Tree, unique: nat) returns (codes: seq<CodeEntry>)
    requires unique == 1 ==> root.Leaf?
    requires Height(root) < MaxChars && |LeafSeq(root)| <= MaxChars
    ensures unique == 1 ==> codes == [CodeEntry(root.ch, "0")]
    ensures unique != 1 ==> codes == CodesFrom(root, [])
  {
    if unique == 1 {
      codes := [CodeEntry(root.ch, "0")];
    } else {
      var buf := new char[MaxChars];
      var entries := new CodeEntry[MaxChars](_ => CodeEntry(0, []));
      var count := GenerateCodes(root, buf, 0, entries, 0);
      assert buf[..0] == [];
      codes := entries[..count];
    }
  }

  /**
   * main of mp2.c, from the counting loop to the qsort call: the table it prints is the reference table, with
   * qsort standing as the reference sort.
   */
  method HuffmanCodeTable(input: seq<Byte>) returns (table: seq<CodeEntry>)
    ensures table == CodeTableOf(input)
  {
    var freq, unique := CountFrequencies(input);
    NoSymbolsMeansEmpty(Scanned(input));
    if unique == 0 {
      return [];
    }
    var root := PlantTree(input, freq, unique);
    HuffmanOfFits(input);
    if unique == 1 {
      SingleSymbolTree(input);
    }
    var codes := CodesOf(root, unique);
    if unique == 1 {
      SortOne(codes[0]);
    }
    table := SortByCode(codes);
  }

  /**
   * With two symbols or more, the traversal emits one entry per distinct
   * scanned byte, and each code is a nonempty '0'/'1' string that leads
   * from the root to that byte's leaf, which counts its occurrences.
   */
  lemma TreeCodesAreCodes(input: seq<Byte>)
    requires |Symbols(Scanned(input))| >= 2
    ensures Scanned(input) != []
    ensures |TreeCodesOf(input)| == |Symbols(Scanned(input))|
    ensures PrefixFree(TreeCodesOf(input))
    ensures forall i, j :: 0 <= i < j < |TreeCodesOf(input)| ==> TreeCodesOf(input)[i].ch != TreeCodesOf(input)[j].ch
    ensures forall b :: b in Scanned(input) ==> exists e :: e in TreeCodesOf(input) && e.ch == b
    ensures forall e :: e in TreeCodesOf(input) ==>
              && e.ch in Scanned(input) && 1 <= |e.code| && IsBinary(e.code)
              && Follow(HuffmanOf(input), e.code) == Some(Leaf(e.ch, multiset(Scanned(input))[e.ch]))
  {
    NoSymbolsMeansEmpty(Scanned(input));
    TreeCodesShape(input);
    TreeCodesCoverSymbols(input);
    TreeCodesDecode(input);
  }

  lemma TreeCodesShape(input: seq<Byte>)
    requires |Symbols(Scanned(input))| >= 2 && Scanned(input) != []
    ensures |TreeCodesOf(input)| == |Symbols(Scanned(input))|
    ensures PrefixFree(TreeCodesOf(input))
    ensures forall i, j :: 0 <= i < j < |TreeCodesOf(input)| ==> TreeCodesOf(input)[i].ch != TreeCodesOf(input)[j].ch
    ensures forall e :: e in TreeCodesOf(input) ==> 1 <= |e.code|
  {
    var t := HuffmanOf(input);
    HuffmanOfFits(input);
    CodesArePrefixFree(t, []);
    CodesHaveDistinctSymbols(t, []);
  }

  lemma TreeCodesCoverSymbols(input: seq<Byte>)
    requires Scanned(input) != []
    ensures forall b :: b in Scanned(input) ==> exists e :: e in TreeCodesOf(input) && e.ch == b
  {
    var t := HuffmanOf(input);
    var c := TreeCodesOf(input);
    TreeLeavesAreQueued(input);
    QueuedLeavesAreSymbols(input);
    forall b | b in Scanned(input)
      ensures exists e :: e in c && e.ch == b
    {
      var z := Leaf(b, multiset(Scanned(input))[b]);
      assert z in LeafSeq(t);
      var p :| 0 <= p < |LeafSeq(t)| && LeafSeq(t)[p] == z;
      assert c[p] in c && c[p].ch == b;
    }
  }

  lemma TreeCodesDecode(input: seq<Byte>)
    requires Scanned(input) != []
    ensures forall e :: e in TreeCodesOf(input) ==>
              && e.ch in Scanned(input) && IsBinary(e.code)
              && Follow(HuffmanOf(input), e.code) == Some(Leaf(e.ch, multiset(Scanned(input))[e.ch]))
  {
    var c := TreeCodesOf(input);
    forall e | e in c
      ensures && e.ch in Scanned(input) && IsBinary(e.code)
              && Follow(HuffmanOf(input), e.code) == Some(Leaf(e.ch, multiset(Scanned(input))[e.ch]))
    {
      var i :| 0 <= i < |c| && c[i] == e;
      TreeCodeDecodes(input, i);
    }
  }

  lemma TreeCodeDecodes(input: seq<Byte>, i: nat)
    requires Scanned(input) != [] && i < |TreeCodesOf(input)|
    ensures TreeCodesOf(input)[i].ch in Scanned(input) && IsBinary(TreeCodesOf(input)[i].code)
    ensures Follow(HuffmanOf(input), TreeCodesOf(input)[i].code)
              == Some(Leaf(TreeCodesOf(input)[i].ch, multiset(Scanned(input))[TreeCodesOf(input)[i].ch]))
  {
    var t := HuffmanOf(input);
    var e := TreeCodesOf(input)[i];
    CodesDecode(t, [], i);
    assert e.code[0..] == e.code;
    FollowedPathIsBinary(t, e.code);
    var z := LeafSeq(t)[i];
    TreeLeavesAreQueued(input);
    assert z in QueuedLeaves(input);
    QueuedLeavesAreSymbols(input);
  }

  /**
   * The printed table: one entry per distinct scanned byte, no byte twice,
   * ascending by code; with two symbols or more the codes are nonempty,
   * prefix-free, and each decodes in the tree to its byte's leaf.
   */
  lemma CodeTableIsPrefixCode(input: seq<Byte>)
    ensures |CodeTableOf(input)| == |Symbols(Scanned(input))|
    ensures forall e :: e in CodeTableOf(input) ==> e.ch in Scanned(input)
    ensures forall b :: b in Scanned(input) ==> exists e :: e in CodeTableOf(input) && e.ch == b
    ensures forall i, j :: 0 <= i < j < |CodeTableOf(input)| ==> CodeTableOf(input)[i].ch != CodeTableOf(input)[j].ch
    ensures SortedByCode(CodeTableOf(input))
    ensures |Symbols(Scanned(input))| >= 2 ==>
              && PrefixFree(CodeTableOf(input))
              && forall e :: e in CodeTableOf(input) ==> 1 <= |e.code| && IsBinary(e.code)
    ensures |Symbols(Scanned(input))| >= 2 ==>
              && Scanned(input) != []
              && forall e :: e in CodeTableOf(input) ==>
                   Follow(HuffmanOf(input), e.code) == Some(Leaf(e.ch, multiset(Scanned(input))[e.ch]))
  {
    var s := Scanned(input);
    NoSymbolsMeansEmpty(s);
    if |Symbols(s)| == 1 {
      TableOfOneSymbol(input);
    } else if |Symbols(s)| >= 2 {
      TableOfSymbols(input);
      TableIsPrefixFree(input);
      TableCoversSymbols(input);
      TableDecodes(input);
    }
  }

  lemma TableOfOneSymbol(input: seq<Byte>)
    requires |Symbols(Scanned(input))| == 1
    ensures Scanned(input) != [] && CodeTableOf(input) == [CodeEntry(Scanned(input)[0], "0")]
    ensures forall b :: b in Scanned(input) ==> exists e :: e in CodeTableOf(input) && e.ch == b
  {
    var s := Scanned(input);
    NoSymbolsMeansEmpty(s);
    assert s[0] in Symbols(s);
    var table := CodeTableOf(input);
    forall b | b in s
      ensures exists e :: e in table && e.ch == b
    {
      SingletonSet(Symbols(s), b, s[0]);
      assert table[0] in table;
    }
  }

  /** With two symbols or more the table is the sorted traversal, entry for entry. */
  lemma TableOfSymbols(input: seq<Byte>)
    requires |Symbols(Scanned(input))| >= 2
    ensures Scanned(input) != []
    ensures |CodeTableOf(input)| == |Symbols(Scanned(input))|
    ensures forall e :: e in CodeTableOf(input) <==> e in TreeCodesOf(input)
  {
    NoSymbolsMeansEmpty(Scanned(input));
    TableSize(input);
    SortKeepsEntries(TreeCodesOf(input));
  }

  lemma TableSize(input: seq<Byte>)
    requires |Symbols(Scanned(input))| >= 2 && Scanned(input) != []
    ensures |CodeTableOf(input)| == |Symbols(Scanned(input))|
  {
    TreeCodesShape(input);
    SortKeepsEntries(TreeCodesOf(input));
  }

  lemma TableIsPrefixFree(input: seq<Byte>)
    requires |Symbols(Scanned(input))| >= 2
    ensures PrefixFree(CodeTableOf(input))
    ensures forall i, j :: 0 <= i < j < |CodeTableOf(input)| ==> CodeTableOf(input)[i].ch != CodeTableOf(input)[j].ch
  {
    NoSymbolsMeansEmpty(Scanned(input));
    TreeCodesShape(input);
    SortKeepsCodeProperties(TreeCodesOf(input));
  }

  lemma TableCoversSymbols(input: seq<Byte>)
    requires |Symbols(Scanned(input))| >= 2
    ensures forall b :: b in Scanned(input) ==> exists e :: e in CodeTableOf(input) && e.ch == b
  {
    NoSymbolsMeansEmpty(Scanned(input));
    TableOfSymbols(input);
    TreeCodesCoverSymbols(input);
    forall b | b in Scanned(input)
      ensures exists e :: e in CodeTableOf(input) && e.ch == b
    {
      var e :| e in TreeCodesOf(input) && e.ch == b;
      assert e in CodeTableOf(input);
    }
  }

  lemma TableDecodes(input: seq<Byte>)
    requires |Symbols(Scanned(input))| >= 2
    ensures Scanned(input) != []
    ensures forall e :: e in CodeTableOf(input) ==>
              && e.ch in Scanned(input) && 1 <= |e.code| && IsBinary(e.code)
              && Follow(HuffmanOf(input), e.code) == Some(Leaf(e.ch, multiset(Scanned(input))[e.ch]))
  {
    NoSymbolsMeansEmpty(Scanned(input));
    TableOfSymbols(input);
    TreeCodesShape(input);
    TreeCodesDecode(input);
  }

  /**
   * Any ascending permutation of the traversal's entries is the table:
   * whichever way qsort orders them, main prints the same lines.
   */
  lemma QsortOutcomeIsTable(input: seq<Byte>, sorted: seq<CodeEntry>)
    requires |Symbols(Scanned(input))| >= 2
    requires Scanned(input) != []
    requires multiset(sorted) == multiset(TreeCodesOf(input)) && SortedByCode(sorted)
    ensures sorted == CodeTableOf(input)
  {
    TreeCodesAreCodes(input);
    var table := CodeTableOf(input);
    PermutationKeepsCodeProperties(TreeCodesOf(input), table);
    SortedPermutationIsUnique(table, sorted);
  }
}
