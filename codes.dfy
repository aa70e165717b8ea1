/**
 * Code extraction (generate_codes_recursive of mp2.c): one (symbol, code)
 * entry per leaf, the code being the root-to-leaf path with '0' for left
 * and '1' for right.
 */
module CodeExtraction {
  import opened Options
  import opened HuffmanTree

  /** The HuffmanCode record: a symbol and its code string. */
  datatype CodeEntry = CodeEntry(ch: Byte, code: seq<char>)

  /**
   * The entries the traversal of `t` appends when the path to `t` is
   * `prefix`: left subtree first, then right.
   */
  function CodesFrom(t: Tree, prefix: seq<char>): (r: seq<CodeEntry>)
    ensures |r| == |LeafSeq(t)|
    ensures forall i :: 0 <= i < |r| ==> r[i].ch == LeafSeq(t)[i].ch
    ensures forall i :: 0 <= i < |r| ==> prefix <= r[i].code && |r[i].code| <= |prefix| + Height(t)
    ensures t.Node? ==> forall i :: 0 <= i < |r| ==> |r[i].code| > |prefix|
  {
    match t
    case Leaf(c, _) => [CodeEntry(c, prefix)]
    case Node(l, rt, _, _) => CodesFrom(l, prefix + ['0']) + CodesFrom(rt, prefix + ['1'])
  }

  /** Follows `bits` from the root: the decoding a receiver of the code table does. */
  function Follow(t: Tree, bits: seq<char>): Option<Tree>
  {
    if bits == [] then Some(t)
    else match t
      case Leaf(_, _) => None
      case Node(l, r, _, _) =>
        if bits[0] == '0' then Follow(l, bits[1..])
        else if bits[0] == '1' then Follow(r, bits[1..])
        else None
  }

  /** Codes are strings over '0' and '1'. */
  ghost predicate IsBinary(s: seq<char>)
  {
    forall k :: 0 <= k < |s| ==> s[k] == '0' || s[k] == '1'
  }

  /** No code is a prefix of another entry's code. */
  ghost predicate PrefixFree(codes: seq<CodeEntry>)
  {
    forall i, j :: 0 <= i < |codes| && 0 <= j < |codes| && i != j ==> !(codes[i].code <= codes[j].code)
  }

  /** Past `prefix`, a code extending `prefix + [c]` starts with `c`. */
  lemma PathStep(prefix: seq<char>, c: char, code: seq<char>)
    requires prefix + [c] <= code
    ensures |code| > |prefix| && code[|prefix|..] != []
    ensures code[|prefix|..][0] == c && code[|prefix|..][1..] == code[|prefix| + 1..]
  {
    assert code[|prefix|] == (prefix + [c])[|prefix|];
  }

  /** Decoding each emitted code from the root reaches that entry's leaf. */
  lemma {:induction false} CodesDecode(t: Tree, prefix: seq<char>, i: nat)
    requires i < |LeafSeq(t)|
    ensures Follow(t, CodesFrom(t, prefix)[i].code[|prefix|..]) == Some(LeafSeq(t)[i])
  {
    match t
    case Leaf(_, _) =>
      assert CodesFrom(t, prefix)[i].code[|prefix|..] == [];
    case Node(l, r, _, _) =>
      var n := |LeafSeq(l)|;
      var code := CodesFrom(t, prefix)[i].code;
      if i < n {
        CodesDecode(l, prefix + ['0'], i);
        assert CodesFrom(t, prefix)[i] == CodesFrom(l, prefix + ['0'])[i];
        assert LeafSeq(t)[i] == LeafSeq(l)[i];
        PathStep(prefix, '0', code);
      } else {
        CodesDecode(r, prefix + ['1'], i - n);
        assert CodesFrom(t, prefix)[i] == CodesFrom(r, prefix + ['1'])[i - n];
        assert LeafSeq(t)[i] == LeafSeq(r)[i - n];
        PathStep(prefix, '1', code);
      }
  }

  /** A path that leads somewhere is made of '0' and '1'. */
  lemma {:induction false} FollowedPathIsBinary(t: Tree, bits: seq<char>)
    requires Follow(t, bits).Some?
    ensures IsBinary(bits)
    decreases |bits|
  {
    if bits != [] {
      FollowedPathIsBinary(if bits[0] == '0' then t.left else t.right, bits[1..]);
      forall k | 0 < k < |bits|
        ensures bits[k] == '0' || bits[k] == '1'
      {
        assert bits[k] == bits[1..][k - 1];
      }
    }
  }

  /** Strings that branch apart after `prefix` are not prefixes of each other. */
  lemma BranchesDiverge(prefix: seq<char>, x: seq<char>, y: seq<char>)
    requires prefix + ['0'] <= x && prefix + ['1'] <= y
    ensures !(x <= y) && !(y <= x)
  {
    assert x[|prefix|] == '0' && y[|prefix|] == '1';
  }

  /** Two prefix-free tables whose codes never prefix one another join into one. */
  lemma JoinPrefixFree(left: seq<CodeEntry>, right: seq<CodeEntry>)
    requires PrefixFree(left) && PrefixFree(right)
    requires forall x, y :: x in left && y in right ==> !(x.code <= y.code) && !(y.code <= x.code)
    ensures PrefixFree(left + right)
  {
    var all := left + right;
    var n := |left|;
    forall i, j | 0 <= i < |all| && 0 <= j < |all| && i != j
      ensures !(all[i].code <= all[j].code)
    {
      if i < n && j < n {
        assert all[i] == left[i] && all[j] == left[j];
      } else if n <= i && n <= j {
        assert all[i] == right[i - n] && all[j] == right[j - n];
      } else if i < n {
        assert all[i] == left[i] && all[j] == right[j - n];
      } else {
        assert all[j] == left[j] && all[i] == right[i - n];
      }
    }
  }

  /** The codes of one traversal are pairwise prefix-free. */
  lemma {:induction false} CodesArePrefixFree(t: Tree, prefix: seq<char>)
    ensures PrefixFree(CodesFrom(t, prefix))
  {
    match t
    case Leaf(_, _) =>
    case Node(l, r, _, _) =>
      var left := CodesFrom(l, prefix + ['0']);
      var right := CodesFrom(r, prefix + ['1']);
      CodesArePrefixFree(l, prefix + ['0']);
      CodesArePrefixFree(r, prefix + ['1']);
      forall x, y | x in left && y in right
        ensures !(x.code <= y.code) && !(y.code <= x.code)
      {
        BranchesDiverge(prefix, x.code, y.code);
      }
      JoinPrefixFree(left, right);
  }

  /** Distinct leaves give entries with distinct symbols. */
  lemma CodesHaveDistinctSymbols(t: Tree, prefix: seq<char>)
    requires DistinctLeaves(t)
    ensures forall i, j :: 0 <= i < j < |CodesFrom(t, prefix)| ==> CodesFrom(t, prefix)[i].ch != CodesFrom(t, prefix)[j].ch
  {
    forall i, j | 0 <= i < j < |CodesFrom(t, prefix)|
      ensures CodesFrom(t, prefix)[i].ch != CodesFrom(t, prefix)[j].ch
    {
      DistinctLeavesHaveDistinctSymbols(t, i, j);
    }
  }

  /**
   * Two consecutive writes, `left` over `c0[lo..mid]` and then `right` over
   * `c1[mid..hi]`, leave `left + right` over `lo..hi` and the rest as it was.
   */
  lemma Splice(c0: seq<CodeEntry>, c1: seq<CodeEntry>, c2: seq<CodeEntry>, lo: nat, mid: nat, hi: nat,
               left: seq<CodeEntry>, right: seq<CodeEntry>)
    requires |c0| == |c1| == |c2| && lo <= mid <= hi <= |c0|
    requires c1[lo..mid] == left && c1[..lo] == c0[..lo] && c1[mid..] == c0[mid..]
    requires c2[mid..hi] == right && c2[..mid] == c1[..mid] && c2[hi..] == c1[hi..]
    ensures c2[lo..hi] == left + right
    ensures c2[..lo] == c0[..lo] && c2[hi..] == c0[hi..]
  {
    assert c2[lo..mid] == c1[lo..mid];
    assert c2[lo..hi] == c2[lo..mid] + c2[mid..hi];
    assert c2[..lo] == c2[..mid][..lo];
    assert c1[hi..] == c1[mid..][hi - mid..];
  }

  /**
   * generate_codes_recursive: appends the entries of `root` to `codes` from
   * position `count` on, using `buf[..depth]` as the path so far, and
   * returns the new count.
   */
  method GenerateCodes(root: Tree, buf: array<char>, depth: nat, codes: array<CodeEntry>, count: nat)
    returns (newCount: nat)
    requires depth + Height(root) < buf.Length
    requires count + |LeafSeq(root)| <= codes.Length
    modifies buf, codes
    ensures newCount == count + |LeafSeq(root)|
    ensures codes[count..newCount] == CodesFrom(root, old(buf[..depth]))
    ensures codes[..count] == old(codes[..count])
    ensures codes[newCount..] == old(codes[newCount..])
    ensures buf[..depth] == old(buf[..depth])
    decreases root
  {
    match root
    case Leaf(c, _) =>
      buf[depth] := '\0';
      codes[count] := CodeEntry(c, buf[..depth]);
      newCount := count + 1;
      assert codes[count..newCount] == [codes[count]];
    case Node(l, r, _, _) =>
      ghost var path := buf[..depth];
      ghost var c0 := codes[..];
      buf[depth] := '0';
      assert buf[..depth + 1] == path + ['0'];
      var mid := GenerateCodes(l, buf, depth + 1, codes, count);
      ghost var c1 := codes[..];
      buf[depth] := '1';
      assert buf[..depth + 1] == path + ['1'];
      newCount := GenerateCodes(r, buf, depth + 1, codes, mid);
      Splice(c0, c1, codes[..], count, mid, newCount, CodesFrom(l, path + ['0']), CodesFrom(r, path + ['1']));
  }
}
