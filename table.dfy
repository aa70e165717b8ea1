/**
 * Ordering the code table (compare_huffman_codes and the qsort call of
 * mp2.c). The codes hold no NUL, so strcmp is the lexicographic order in
 * which a proper prefix comes first.
 */
module CodeTable {
  import opened CodeExtraction

  /** The sign of strcmp on two NUL-free strings. */
  function StrCmp(a: seq<char>, b: seq<char>): (r: int)
    ensures -1 <= r <= 1
    ensures r == 0 <==> a == b
  {
    if a == [] && b == [] then 0
    else if a == [] then -1
    else if b == [] then 1
    else if a[0] < b[0] then -1
    else if a[0] > b[0] then 1
    else
      var r := StrCmp(a[1..], b[1..]);
      assert a == [a[0]] + a[1..] && b == [b[0]] + b[1..];
      r
  }

  /** A proper prefix sorts first. */
  lemma {:induction false} StrCmpPrefixFirst(a: seq<char>, b: seq<char>)
    requires a < b
    ensures StrCmp(a, b) == -1 && StrCmp(b, a) == 1
  {
    if a != [] {
      assert a[1..] < b[1..];
      StrCmpPrefixFirst(a[1..], b[1..]);
    }
  }

  lemma {:induction false} StrCmpAntisymmetric(a: seq<char>, b: seq<char>)
    ensures StrCmp(a, b) == -StrCmp(b, a)
  {
    if a != [] && b != [] && a[0] == b[0] {
      StrCmpAntisymmetric(a[1..], b[1..]);
    }
  }

  lemma {:induction false} StrCmpTransitive(a: seq<char>, b: seq<char>, c: seq<char>)
    requires StrCmp(a, b) <= 0 && StrCmp(b, c) <= 0
    ensures StrCmp(a, c) <= 0
  {
    if a != [] && b != [] && c != [] && a[0] == b[0] && b[0] == c[0] {
      StrCmpTransitive(a[1..], b[1..], c[1..]);
    }
  }

  /** compare_huffman_codes: orders entries by their code alone. */
  function CompareHuffmanCodes(x: CodeEntry, y: CodeEntry): (r: int)
    ensures -1 <= r <= 1
    ensures r == 0 <==> x.code == y.code
  {
    StrCmp(x.code, y.code)
  }

  /** The outcome qsort promises: ascending by code. */
  ghost predicate SortedByCode(s: seq<CodeEntry>)
  {
    forall i, j :: 0 <= i < j < |s| ==> CompareHuffmanCodes(s[i], s[j]) <= 0
  }

  /** No two positions of `s` hold the same code. */
  ghost predicate DistinctCodes(s: seq<CodeEntry>)
  {
    forall i, j :: 0 <= i < j < |s| ==> s[i].code != s[j].code
  }

  function InsertByCode(x: CodeEntry, s: seq<CodeEntry>): (r: seq<CodeEntry>)
    ensures multiset(r) == multiset(s) + multiset{x}
  {
    if s == [] || CompareHuffmanCodes(x, s[0]) <= 0 then [x] + s
    else
      assert s == [s[0]] + s[1..];
      [s[0]] + InsertByCode(x, s[1..])
  }

  /** An entry no later than any of a sorted sequence can go in front of it. */
  lemma PrependKeepsSorted(y: CodeEntry, t: seq<CodeEntry>)
    requires SortedByCode(t)
    requires forall k :: 0 <= k < |t| ==> CompareHuffmanCodes(y, t[k]) <= 0
    ensures SortedByCode([y] + t)
  {
    var r := [y] + t;
    forall i, j | 0 <= i < j < |r|
      ensures CompareHuffmanCodes(r[i], r[j]) <= 0
    {
      assert r[j] == t[j - 1];
      if i > 0 {
        assert r[i] == t[i - 1];
      }
    }
  }

  lemma {:induction false} InsertKeepsSorted(x: CodeEntry, s: seq<CodeEntry>)
    requires SortedByCode(s)
    ensures SortedByCode(InsertByCode(x, s))
  {
    if s == [] || CompareHuffmanCodes(x, s[0]) <= 0 {
      forall k | 0 <= k < |s|
        ensures CompareHuffmanCodes(x, s[k]) <= 0
      {
        if k > 0 {
          assert CompareHuffmanCodes(s[0], s[k]) <= 0;
          StrCmpTransitive(x.code, s[0].code, s[k].code);
        }
      }
      PrependKeepsSorted(x, s);
    } else {
      var t := InsertByCode(x, s[1..]);
      SortedTail(s);
      InsertKeepsSorted(x, s[1..]);
      StrCmpAntisymmetric(x.code, s[0].code);
      forall k | 0 <= k < |t|
        ensures CompareHuffmanCodes(s[0], t[k]) <= 0
      {
        assert t[k] in multiset(t);
        if t[k] != x {
          assert t[k] in multiset(s[1..]);
          var p :| 0 <= p < |s[1..]| && s[1..][p] == t[k];
          assert s[p + 1] == t[k];
        }
      }
      PrependKeepsSorted(s[0], t);
    }
  }

  /**
   * The reference sort standing in for qsort: an insertion sort, whose
   * result is ascending by code and a permutation of its input.
   */
  function SortByCode(s: seq<CodeEntry>): (r: seq<CodeEntry>)
    ensures multiset(r) == multiset(s)
    ensures SortedByCode(r)
  {
    if s == [] then []
    else
      var t := SortByCode(s[1..]);
      InsertKeepsSorted(s[0], t);
      assert s == [s[0]] + s[1..];
      InsertByCode(s[0], t)
  }

  lemma SortedTail(s: seq<CodeEntry>)
    requires s != [] && SortedByCode(s)
    ensures SortedByCode(s[1..])
  {
    forall i, j | 0 <= i < j < |s| - 1
      ensures CompareHuffmanCodes(s[1..][i], s[1..][j]) <= 0
    {
      assert s[1..][i] == s[i + 1] && s[1..][j] == s[j + 1];
    }
  }

  lemma DistinctCodesTail(s: seq<CodeEntry>)
    requires s != [] && DistinctCodes(s)
    ensures DistinctCodes(s[1..])
  {
    forall i, j | 0 <= i < j < |s| - 1
      ensures s[1..][i].code != s[1..][j].code
    {
      assert s[1..][i] == s[i + 1] && s[1..][j] == s[j + 1];
    }
  }

  lemma TailsArePermutations<T>(a: seq<T>, b: seq<T>)
    requires a != [] && b != [] && a[0] == b[0] && multiset(a) == multiset(b)
    ensures multiset(a[1..]) == multiset(b[1..])
  {
    assert a == [a[0]] + a[1..] && b == [b[0]] + b[1..];
    assert multiset(a) == multiset{a[0]} + multiset(a[1..]);
    assert multiset(b) == multiset{a[0]} + multiset(b[1..]);
    assert multiset(a[1..]) == multiset(a) - multiset{a[0]} == multiset(b[1..]);
  }

  /** Two ascending permutations with distinct codes start with the same entry. */
  lemma SortedPermutationsShareHead(a: seq<CodeEntry>, b: seq<CodeEntry>)
    requires a != [] && multiset(a) == multiset(b)
    requires SortedByCode(a) && SortedByCode(b) && DistinctCodes(a)
    ensures b != [] && a[0] == b[0]
  {
    assert a[0] in multiset(b);
    var k :| 0 <= k < |b| && b[k] == a[0];
    assert b[0] in multiset(a);
    var j :| 0 <= j < |a| && a[j] == b[0];
    assert CompareHuffmanCodes(b[0], a[0]) <= 0 by {
      if k > 0 {
        assert CompareHuffmanCodes(b[0], b[k]) <= 0;
      }
    }
    assert CompareHuffmanCodes(a[0], b[0]) <= 0 by {
      if j > 0 {
        assert CompareHuffmanCodes(a[0], a[j]) <= 0;
      }
    }
    StrCmpAntisymmetric(a[0].code, b[0].code);
    assert a[0].code == a[j].code;
  }

  /** Sorting keeps the length and the entries. */
  lemma SortKeepsEntries(s: seq<CodeEntry>)
    ensures |SortByCode(s)| == |s|
    ensures forall e :: e in SortByCode(s) <==> e in s
  {
    var r := SortByCode(s);
    assert |r| == |multiset(r)| == |multiset(s)| == |s|;
    forall e
      ensures e in r <==> e in s
    {
      assert e in r <==> e in multiset(r);
      assert e in s <==> e in multiset(s);
    }
  }

  /** Sorting a prefix-free table with distinct symbols keeps both properties and the entries. */
  lemma SortKeepsCodeProperties(s: seq<CodeEntry>)
    requires PrefixFree(s)
    requires forall i, j :: 0 <= i < j < |s| ==> s[i].ch != s[j].ch
    ensures |SortByCode(s)| == |s|
    ensures forall e :: e in SortByCode(s) <==> e in s
    ensures PrefixFree(SortByCode(s)) && DistinctCodes(SortByCode(s))
    ensures forall i, j :: 0 <= i < j < |SortByCode(s)| ==> SortByCode(s)[i].ch != SortByCode(s)[j].ch
  {
    SortKeepsEntries(s);
    PermutationKeepsCodeProperties(s, SortByCode(s));
  }

  lemma SortOne(e: CodeEntry)
    ensures SortByCode([e]) == [e]
  {
    assert [e][1..] == [];
  }

  /**
   * qsort is not stable, but with distinct codes every ascending
   * permutation is the same sequence, so the table does not depend on how
   * the sort is carried out.
   */
  lemma {:induction false} SortedPermutationIsUnique(a: seq<CodeEntry>, b: seq<CodeEntry>)
    requires multiset(a) == multiset(b)
    requires SortedByCode(a) && SortedByCode(b) && DistinctCodes(a)
    ensures a == b
    decreases |a|
  {
    if a == [] {
      assert |b| == |multiset(b)| == 0;
    } else {
      SortedPermutationsShareHead(a, b);
      TailsArePermutations(a, b);
      SortedTail(a);
      SortedTail(b);
      DistinctCodesTail(a);
      SortedPermutationIsUnique(a[1..], b[1..]);
    }
  }

  /** Positions holding pairwise different entries. */
  ghost predicate NoDuplicates<T>(s: seq<T>)
  {
    forall i, j :: 0 <= i < j < |s| ==> s[i] != s[j]
  }

  lemma {:induction false} NoDuplicatesCountsOnce<T>(s: seq<T>, x: T)
    requires NoDuplicates(s) && x in s
    ensures multiset(s)[x] == 1
  {
    assert s == [s[0]] + s[1..];
    if s[0] == x {
      forall p | 0 <= p < |s| - 1
        ensures s[1..][p] != x
      {
        assert s[1..][p] == s[p + 1];
      }
    } else {
      NoDuplicatesCountsOnce(s[1..], x);
    }
  }

  lemma CountsOnceNoDuplicates<T>(s: seq<T>)
    requires forall x :: x in s ==> multiset(s)[x] == 1
    ensures NoDuplicates(s)
  {
    forall i, j | 0 <= i < j < |s|
      ensures s[i] != s[j]
    {
      assert s == s[..j] + s[j..];
      assert s[i] in s[..j] && s[j] in s[j..];
      assert multiset(s)[s[j]] == multiset(s[..j])[s[j]] + multiset(s[j..])[s[j]];
    }
  }

  /** A permutation of a sequence without duplicates has none either. */
  lemma PermutationKeepsNoDuplicates<T>(a: seq<T>, b: seq<T>)
    requires multiset(a) == multiset(b) && NoDuplicates(a)
    ensures NoDuplicates(b)
  {
    forall x | x in b
      ensures multiset(b)[x] == 1
    {
      assert x in multiset(a);
      NoDuplicatesCountsOnce(a, x);
    }
    CountsOnceNoDuplicates(b);
  }

  /** Sorting a prefix-free table keeps it prefix-free and its symbols distinct. */
  lemma PermutationKeepsCodeProperties(a: seq<CodeEntry>, b: seq<CodeEntry>)
    requires multiset(a) == multiset(b) && PrefixFree(a)
    ensures PrefixFree(b) && DistinctCodes(b)
    ensures (forall i, j :: 0 <= i < j < |a| ==> a[i].ch != a[j].ch) ==>
              forall i, j :: 0 <= i < j < |b| ==> b[i].ch != b[j].ch
  {
    assert NoDuplicates(a) by {
      forall i, j | 0 <= i < j < |a|
        ensures a[i] != a[j]
      {
        assert !(a[i].code <= a[j].code);
      }
    }
    PermutationKeepsNoDuplicates(a, b);
    forall i, j | 0 <= i < |b| && 0 <= j < |b| && i != j
      ensures !(b[i].code <= b[j].code)
      ensures (forall i, j :: 0 <= i < j < |a| ==> a[i].ch != a[j].ch) ==> b[i].ch != b[j].ch
    {
      assert b[i] != b[j];
      assert b[i] in multiset(a) && b[j] in multiset(a);
      var p :| 0 <= p < |a| && a[p] == b[i];
      var q :| 0 <= q < |a| && a[q] == b[j];
      assert p != q;
    }
  }
}
