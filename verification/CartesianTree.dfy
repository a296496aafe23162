/**
  python/Cartesian-tree.py: the sum over all non-empty subarrays of minimum times sum, by the Cartesian tree of the
  array and prefix sums of prefix sums, modulo 10^9 + 7.
*/
module CartesianTree {
  import opened Arithmetic
  import opened Modular

  const M := 1_000_000_007

  // ----- what is computed -----

  /** The least of sh[i..j]. */
  function Min(sh: seq<int>, i: nat, j: nat): int
    requires i < j <= |sh|
  {
    if j == i + 1 then sh[i] else
      var rest := Min(sh, i, j - 1);
      if rest <= sh[j - 1] then rest else sh[j - 1]
  }

  /** The sum of sh[i..j]. */
  function Total(sh: seq<int>, i: nat, j: nat): int
    requires i <= j <= |sh|
  {
    if i == j then 0 else Total(sh, i, j - 1) + sh[j - 1]
  }

  /** Minimum times sum, added up over the subarrays that begin at `i` and end before one of lo..hi. */
  function Ends(sh: seq<int>, i: nat, lo: nat, hi: nat): int
    requires i < lo && hi <= |sh| + 1
  {
    if hi <= lo then 0 else Ends(sh, i, lo, hi - 1) + Min(sh, i, hi - 1) * Total(sh, i, hi - 1)
  }

  /** Minimum times sum, added up over all non-empty subarrays of sh[b..e]. */
  function Strength(sh: seq<int>, b: nat, e: nat): int
    requires e <= |sh|
    decreases e - b
  {
    if e <= b then 0 else Ends(sh, b, b + 1, e + 1) + Strength(sh, b + 1, e)
  }

  /** The two examples that the source asserts. */
  lemma Examples()
    ensures Strength([1, 3, 1, 2], 0, 4) == 44 && Strength([5, 4, 6], 0, 3) == 213
  {
    var s, t := [1, 3, 1, 2], [5, 4, 6];
    assert Ends(s, 0, 1, 5) == 1 + 4 + 5 + 7 && Ends(s, 1, 2, 5) == 9 + 4 + 6 && Ends(s, 2, 3, 5) == 1 + 3 && Ends(s, 3, 4, 5) == 4;
    assert Ends(t, 0, 1, 4) == 25 + 36 + 60 && Ends(t, 1, 2, 4) == 16 + 40 && Ends(t, 2, 3, 4) == 36;
  }

  // ----- the subarrays that cross a minimum -----

  /** Those with the position `m` in them, whose first element is in b..m. */
  function Cross(sh: seq<int>, b: nat, m: nat, e: nat): int
    requires m < e <= |sh|
    decreases m + 1 - b
  {
    if m < b then 0 else Ends(sh, b, m + 1, e + 1) + Cross(sh, b + 1, m, e)
  }

  lemma {:induction false} EndsSplit(sh: seq<int>, i: nat, lo: nat, mid: nat, hi: nat)
    requires i < lo <= mid <= hi <= |sh| + 1
    ensures Ends(sh, i, lo, hi) == Ends(sh, i, lo, mid) + Ends(sh, i, mid, hi)
  {
    if mid < hi { EndsSplit(sh, i, lo, mid, hi - 1); }
  }

  lemma {:induction false} StrengthSplit(sh: seq<int>, b: nat, m: nat, e: nat)
    requires b <= m < e <= |sh|
    ensures Strength(sh, b, e) == Strength(sh, b, m) + Cross(sh, b, m, e) + Strength(sh, m + 1, e)
    decreases m - b
  {
    EndsSplit(sh, b, b + 1, m + 1, e + 1);
    if b < m {
      StrengthSplit(sh, b + 1, m, e);
    } else {
      assert Cross(sh, m + 1, m, e) == 0 && Strength(sh, b, m) == 0;
    }
  }

  /** `m` holds a least element of sh[b..e]. */
  ghost predicate LeastAt(sh: seq<int>, b: nat, m: nat, e: nat)
    requires b <= m < e <= |sh|
  {
    forall k :: b <= k < e ==> sh[m] <= sh[k]
  }

  lemma {:induction false} MinIsLeast(sh: seq<int>, i: nat, j: nat, m: nat)
    requires i <= m < j <= |sh| && forall k :: i <= k < j ==> sh[m] <= sh[k]
    ensures Min(sh, i, j) == sh[m]
  {
    if i + 1 < j {
      if m < j - 1 { MinIsLeast(sh, i, j - 1, m); } else { MinAtLeast(sh, i, j - 1, sh[m]); }
    }
  }

  lemma {:induction false} MinAtLeast(sh: seq<int>, i: nat, j: nat, x: int)
    requires i < j <= |sh| && forall k :: i <= k < j ==> x <= sh[k]
    ensures x <= Min(sh, i, j)
  {
    if i + 1 < j { MinAtLeast(sh, i, j - 1, x); }
  }

  lemma {:induction false} TotalSplit(sh: seq<int>, i: nat, k: nat, j: nat)
    requires i <= k <= j <= |sh|
    ensures Total(sh, i, j) == Total(sh, i, k) + Total(sh, k, j)
  {
    if k < j { TotalSplit(sh, i, k, j - 1); }
  }

  /** Total(lo, j) added up over j in lo..hi. */
  function Rights(sh: seq<int>, lo: nat, hi: nat): int
    requires hi <= |sh| + 1
  {
    if hi <= lo then 0 else Rights(sh, lo, hi - 1) + Total(sh, lo, hi - 1)
  }

  /** Total(i, m) added up over i in b..m. */
  function Lefts(sh: seq<int>, b: nat, m: nat): int
    requires m <= |sh|
    decreases m - b
  {
    if m <= b then 0 else Total(sh, b, m) + Lefts(sh, b + 1, m)
  }

  /** `c` sums of `x` each, and `r`, times the minimum `v`. */
  function Across(v: int, c: int, x: int, r: int): int { v * (c * x + r) }

  lemma AcrossMore(v: int, c: int, x: int, r: int, t: int)
    ensures Across(v, c, x, r) + v * (x + t) == Across(v, c + 1, x, r + t)
  {
    assert (c + 1) * x == c * x + x;
  }

  lemma AcrossNone(v: int, x: int)
    ensures Across(v, 0, x, 0) == 0
  {}

  lemma {:induction false} EndsAcross(sh: seq<int>, b: nat, i: nat, m: nat, e: nat, hi: nat)
    requires b <= i <= m < e <= |sh| && m + 1 <= hi <= e + 1 && LeastAt(sh, b, m, e)
    ensures Ends(sh, i, m + 1, hi) == Across(sh[m], hi - m - 1, Total(sh, i, m) + sh[m], Rights(sh, m + 1, hi))
  {
    hide Across;
    var x := Total(sh, i, m) + sh[m];
    if m + 1 < hi {
      var j := hi - 1;
      EndsAcross(sh, b, i, m, e, j);
      MinIsLeast(sh, i, j, m);
      TotalSplit(sh, i, m, j);
      TotalSplit(sh, m, m + 1, j);
      assert Total(sh, m, m + 1) == Total(sh, m, m) + sh[m];
      AcrossMore(sh[m], j - m - 1, x, Rights(sh, m + 1, j), Total(sh, m + 1, j));
    } else {
      AcrossNone(sh[m], x);
    }
  }

  /** All subarrays across a minimum `v` with `k` starts and `c` ends, given the sums `l` of their left and `r` of
      their right parts. */
  function Block(v: int, c: int, l: int, k: int, r: int): int { v * (c * (l + k * v) + k * r) }

  lemma BlockMore(v: int, c: int, t: int, l: int, k: int, r: int)
    ensures Across(v, c, t + v, r) + Block(v, c, l, k, r) == Block(v, c, t + l, k + 1, r)
  {
    assert (k + 1) * v == k * v + v && (k + 1) * r == k * r + r;
    assert c * (t + v) + c * (l + k * v) == c * (t + l + (k * v + v)) by { Factor(c, t + v, l + k * v); }
    Factor(v, c * (t + v) + r, c * (l + k * v) + k * r);
  }

  lemma Factor(c: int, x: int, y: int)
    ensures c * x + c * y == c * (x + y)
  {}

  lemma BlockNone(v: int, c: int, r: int)
    ensures Block(v, c, 0, 0, r) == 0
  {}

  lemma {:induction false} CrossFormula(sh: seq<int>, b: nat, i: nat, m: nat, e: nat)
    requires b <= i <= m + 1 <= e <= |sh| && b <= m && LeastAt(sh, b, m, e)
    ensures Cross(sh, i, m, e) == Block(sh[m], e - m, Lefts(sh, i, m), m + 1 - i, Rights(sh, m + 1, e + 1))
    decreases m + 1 - i
  {
    hide Across, Block;
    if i <= m {
      CrossFormula(sh, b, i + 1, m, e);
      EndsAcross(sh, b, i, m, e, e + 1);
      assert Lefts(sh, i, m) == Total(sh, i, m) + Lefts(sh, i + 1, m);
      BlockMore(sh[m], e - m, Total(sh, i, m), Lefts(sh, i + 1, m), m - i, Rights(sh, m + 1, e + 1));
    } else {
      BlockNone(sh[m], e - m, Rights(sh, m + 1, e + 1));
    }
  }

  // ----- the prefix arrays -----

  function S2(sh: seq<int>, k: nat): int
    requires k <= |sh|
  {
    if k == 0 then 0 else S2(sh, k - 1) + Total(sh, 0, k)
  }

  function S2R(sh: seq<int>, k: nat): int
    requires k <= |sh|
    decreases |sh| - k
  {
    if k == |sh| then 0 else S2R(sh, k + 1) + Total(sh, k, |sh|)
  }

  lemma {:induction false} RightsFromPrefixes(sh: seq<int>, lo: nat, e: nat)
    requires lo <= e <= |sh|
    ensures Rights(sh, lo, e + 1) == S2(sh, e) - S2(sh, lo) - (e - lo) * Total(sh, 0, lo)
  {
    if lo < e {
      RightsFromPrefixes(sh, lo, e - 1);
      TotalSplit(sh, 0, lo, e);
      assert (e - lo) * Total(sh, 0, lo) == (e - 1 - lo) * Total(sh, 0, lo) + Total(sh, 0, lo);
    }
  }

  lemma {:induction false} LeftsFromSuffixes(sh: seq<int>, b: nat, m: nat)
    requires b <= m <= |sh|
    ensures Lefts(sh, b, m) == S2R(sh, b) - S2R(sh, m) - (m - b) * Total(sh, m, |sh|)
    decreases m - b
  {
    if b < m {
      LeftsFromSuffixes(sh, b + 1, m);
      TotalSplit(sh, b, m, |sh|);
      assert (m - b) * Total(sh, m, |sh|) == (m - b - 1) * Total(sh, m, |sh|) + Total(sh, m, |sh|);
    }
  }

  // ----- the tree -----

  /** Node `root` is the tree of the positions b..e, with a least element at its root; -1 is the empty tree. */
  predicate IsTree(sh: seq<int>, l: seq<int>, r: seq<int>, root: int, b: nat, e: nat)
    requires |l| == |r| == |sh| && e <= |sh|
    decreases e - b
  {
    if e <= b then root == -1 && b == e else
      && b <= root < e
      && (forall k :: b <= k < e ==> sh[root] <= sh[k])
      && IsTree(sh, l, r, l[root], b, root)
      && IsTree(sh, l, r, r[root], root + 1, e)
  }

  lemma {:induction false} TreeFrame(sh: seq<int>, l: seq<int>, r: seq<int>, l': seq<int>, r': seq<int>, root: int, b: nat, e: nat)
    requires |l| == |r| == |l'| == |r'| == |sh| && e <= |sh| && IsTree(sh, l, r, root, b, e)
    requires forall k :: b <= k < e ==> l'[k] == l[k] && r'[k] == r[k]
    ensures IsTree(sh, l', r', root, b, e)
    decreases e - b
  {
    if b < e {
      TreeFrame(sh, l, r, l', r', l[root], b, root);
      TreeFrame(sh, l, r, l', r', r[root], root + 1, e);
    }
  }

  /** The first position below stack entry `j`. */
  function From(stack: seq<nat>, j: nat): nat
    requires j <= |stack|
  {
    if j == 0 then 0 else stack[j - 1] + 1
  }

  /** Stack entry `j`: its left tree is complete, nothing from there up to `i` is smaller, and its right child is the
      next entry. */
  ghost predicate OnSpine(sh: seq<int>, l: seq<int>, r: seq<int>, stack: seq<nat>, i: nat, j: nat)
    requires |l| == |r| == |sh| && i <= |sh| && j < |stack|
  {
    && From(stack, j) <= stack[j] < i
    && IsTree(sh, l, r, l[stack[j]], From(stack, j), stack[j])
    && (forall k :: From(stack, j) <= k < i ==> sh[stack[j]] <= sh[k])
    && r[stack[j]] == if j + 1 < |stack| then stack[j + 1] else -1
  }

  /** The stack is the right spine of the tree of the first `i` elements. */
  ghost predicate Spine(sh: seq<int>, l: seq<int>, r: seq<int>, stack: seq<nat>, i: nat)
    requires |l| == |r| == |sh| && i <= |sh|
  {
    && (forall j :: 0 <= j < |stack| ==> OnSpine(sh, l, r, stack, i, j))
    && (if stack == [] then i == 0 else stack[|stack| - 1] == i - 1)
    && (forall k :: i <= k < |sh| ==> l[k] == -1 && r[k] == -1)
  }

  lemma {:induction false} SpineTree(sh: seq<int>, l: seq<int>, r: seq<int>, stack: seq<nat>, i: nat, j: nat)
    requires |l| == |r| == |sh| && i <= |sh| && Spine(sh, l, r, stack, i) && j < |stack|
    ensures IsTree(sh, l, r, stack[j], From(stack, j), i)
    decreases |stack| - j
  {
    assert OnSpine(sh, l, r, stack, i, j);
    if j + 1 < |stack| {
      SpineTree(sh, l, r, stack, i, j + 1);
    } else {
      assert IsTree(sh, l, r, -1, i, i);
    }
  }

  /** Element `i` takes the entries from `q` on as its left tree and becomes the right child of the one below. */
  lemma SpineStep(sh: seq<int>, l: seq<int>, r: seq<int>, stack: seq<nat>, i: nat, q: nat, l': seq<int>, r': seq<int>)
    requires |l| == |r| == |sh| && i < |sh| && Spine(sh, l, r, stack, i) && q <= |stack|
    requires forall j :: q <= j < |stack| ==> stack[j] < |sh| && sh[i] <= sh[stack[j]]
    requires 0 < q ==> stack[q - 1] < |sh| && sh[stack[q - 1]] < sh[i]
    requires l' == if q < |stack| then l[i := stack[q]] else l
    requires r' == if 0 < q then r[stack[q - 1] := i] else r
    ensures Spine(sh, l', r', stack[..q] + [i], i + 1)
  {
    var stack' := stack[..q] + [i];
    assert From(stack', q) == From(stack, q);
    var next := i + 1;
    forall j | 0 <= j < q ensures OnSpine(sh, l', r', stack', next, j) {
      SpineKept(sh, l, r, stack, i, q, l', r', j);
    }
    SpineNew(sh, l, r, stack, i, q, l', r');
  }

  lemma SpineKept(sh: seq<int>, l: seq<int>, r: seq<int>, stack: seq<nat>, i: nat, q: nat, l': seq<int>, r': seq<int>, j: nat)
    requires |l| == |r| == |sh| && i < |sh| && Spine(sh, l, r, stack, i) && j < q <= |stack|
    requires stack[q - 1] < |sh| && sh[stack[q - 1]] < sh[i]
    requires l' == if q < |stack| then l[i := stack[q]] else l
    requires r' == r[stack[q - 1] := i]
    ensures OnSpine(sh, l', r', stack[..q] + [i], i + 1, j)
  {
    var stack' := stack[..q] + [i];
    StackIncreases(sh, l, r, stack, i, j, q - 1);
    assert OnSpine(sh, l, r, stack, i, j) && OnSpine(sh, l, r, stack, i, q - 1);
    assert From(stack', j) == From(stack, j);
    TreeFrame(sh, l, r, l', r', l[stack[j]], From(stack, j), stack[j]);
  }

  lemma {:induction false} StackIncreases(sh: seq<int>, l: seq<int>, r: seq<int>, stack: seq<nat>, i: nat, j: nat, k: nat)
    requires |l| == |r| == |sh| && i <= |sh| && Spine(sh, l, r, stack, i) && j <= k < |stack|
    ensures stack[j] <= stack[k] && (j < k ==> stack[j] < stack[k])
    ensures stack[k] < |sh| && stack[j] < |sh| && sh[stack[j]] <= sh[stack[k]]
  {
    assert OnSpine(sh, l, r, stack, i, k) && OnSpine(sh, l, r, stack, i, j);
    if j < k { StackIncreases(sh, l, r, stack, i, j, k - 1); }
  }

  lemma SpineNew(sh: seq<int>, l: seq<int>, r: seq<int>, stack: seq<nat>, i: nat, q: nat, l': seq<int>, r': seq<int>)
    requires |l| == |r| == |sh| && i < |sh| && Spine(sh, l, r, stack, i) && q <= |stack|
    requires forall j :: q <= j < |stack| ==> stack[j] < |sh| && sh[i] <= sh[stack[j]]
    requires 0 < q ==> stack[q - 1] < |sh|
    requires l' == if q < |stack| then l[i := stack[q]] else l
    requires r' == if 0 < q then r[stack[q - 1] := i] else r
    ensures OnSpine(sh, l', r', stack[..q] + [i], i + 1, q)
  {
    var stack' := stack[..q] + [i];
    var from := From(stack, q);
    if 0 < q { assert OnSpine(sh, l, r, stack, i, q - 1); }
    if q < |stack| {
      SpineTree(sh, l, r, stack, i, q);
      assert OnSpine(sh, l, r, stack, i, q);
      TreeFrame(sh, l, r, l', r', stack[q], from, i);
    } else if 0 < q {
      assert from == i;
    }
    assert From(stack', q) == from && stack'[q] == i;
  }

  // ----- the program -----

  /** getCartesianTree: the child fields of the nodes, by index, and the root. */
  method GetCartesianTree(elements: seq<int>) returns (lChild: seq<int>, rChild: seq<int>, root: int)
    requires elements != []
    ensures |lChild| == |rChild| == |elements|
    ensures IsTree(elements, lChild, rChild, root, 0, |elements|)
  {
    hide OnSpine, IsTree;
    var n := |elements|;
    lChild, rChild := seq(n, _ => -1), seq(n, _ => -1);
    var stack: seq<nat> := [];
    for i := 0 to n
      invariant |lChild| == |rChild| == n && Spine(elements, lChild, rChild, stack, i)
    {
      ghost var full, l, r := stack, lChild, rChild;
      StackInRange(elements, l, r, full, i);
      while |stack| > 0 && elements[stack[|stack| - 1]] >= elements[i]
        invariant |stack| <= |full| && stack == full[..|stack|]
        invariant forall j :: |stack| <= j < |full| ==> elements[i] <= elements[full[j]]
        invariant |lChild| == n && lChild == if |stack| < |full| then l[i := full[|stack|]] else l
      {
        lChild := lChild[i := stack[|stack| - 1]];
        stack := stack[..|stack| - 1];
      }
      if |stack| > 0 {
        rChild := rChild[stack[|stack| - 1] := i];
      }
      SpineStep(elements, l, r, full, i, |stack|, lChild, rChild);
      stack := stack + [i];
    }
    SpineTree(elements, lChild, rChild, stack, n, 0);
    root := stack[0];
  }

  lemma StackInRange(sh: seq<int>, l: seq<int>, r: seq<int>, stack: seq<nat>, i: nat)
    requires |l| == |r| == |sh| && i <= |sh| && Spine(sh, l, r, stack, i)
    ensures forall j :: 0 <= j < |stack| ==> stack[j] < |sh|
  {
    forall j | 0 <= j < |stack| ensures stack[j] < |sh| { assert OnSpine(sh, l, r, stack, i, j); }
  }

  /** The prefix and suffix arrays hold their sums modulo M. */
  ghost predicate Prefixes(sh: seq<int>, s: seq<int>, s2: seq<int>, sr: seq<int>, s2r: seq<int>) {
    PrefixesUpTo(sh, s, s2, |sh|) && SuffixesFrom(sh, sr, s2r, 0)
  }

  ghost predicate PrefixesUpTo(sh: seq<int>, s: seq<int>, s2: seq<int>, i: nat) {
    && |s| == |s2| == |sh| + 1 && i <= |sh|
    && forall k :: 0 <= k <= i ==> Cong(s[k], Total(sh, 0, k), M) && Cong(s2[k], S2(sh, k), M)
  }

  ghost predicate SuffixesFrom(sh: seq<int>, sr: seq<int>, s2r: seq<int>, i: nat) {
    && |sr| == |s2r| == |sh| + 1 && i <= |sh|
    && forall k :: i <= k <= |sh| ==> Cong(sr[k], Total(sh, k, |sh|), M) && Cong(s2r[k], S2R(sh, k), M)
  }

  lemma PrefixStep(sh: seq<int>, s: seq<int>, s2: seq<int>, i: nat, x: int, y: int)
    requires PrefixesUpTo(sh, s, s2, i) && i < |sh| && x == (s[i] + sh[i]) % M && y == (s2[i] + x) % M
    ensures PrefixesUpTo(sh, s[i + 1 := x], s2[i + 1 := y], i + 1)
  {
    hide Cong;
    CongSelf(sh[i], M);
    AddMod(s[i], Total(sh, 0, i), sh[i], sh[i]);
    AddMod(s2[i], S2(sh, i), x, Total(sh, 0, i + 1));
  }

  lemma SuffixStep(sh: seq<int>, sr: seq<int>, s2r: seq<int>, i: nat, x: int, y: int)
    requires SuffixesFrom(sh, sr, s2r, i + 1) && i < |sh| && x == (sr[i + 1] + sh[i]) % M && y == (s2r[i + 1] + x) % M
    ensures SuffixesFrom(sh, sr[i := x], s2r[i := y], i)
  {
    hide Cong;
    TotalFirst(sh, i, |sh|);
    CongSelf(sh[i], M);
    AddMod(sr[i + 1], Total(sh, i + 1, |sh|), sh[i], sh[i]);
    AddMod(s2r[i + 1], S2R(sh, i + 1), x, Total(sh, i, |sh|));
  }

  lemma ZeroArrays(sh: seq<int>, z: seq<int>)
    requires |z| == |sh| + 1 && forall k :: 0 <= k < |z| ==> z[k] == 0
    ensures PrefixesUpTo(sh, z, z, 0) && SuffixesFrom(sh, z, z, |sh|)
  {
    CongSelf(0, M);
  }

  /** What one turn of the loop in `solve` adds for root `m` of b..e. */
  function NodeTerm(sh: seq<int>, s: seq<int>, s2: seq<int>, sr: seq<int>, s2r: seq<int>, b: nat, m: nat, e: nat): int
    requires |s| == |s2| == |sr| == |s2r| == |sh| + 1 && b <= m < e <= |sh|
  {
    var left := (s2r[b] + M - s2r[m] + M - (m - b) * sr[m] % M) * (e - m) % M;
    var right := (s2[e] + M - s2[m + 1] + M - (e - 1 - m) * s[m + 1] % M) * (m - b + 1) % M;
    (left + right + sh[m] * (m + 1 - b) % M * (e - m) % M) * sh[m] % M
  }

  /** One of the two prefix terms: a difference of sums of sums, less `k` times `p`. */
  lemma PrefixTerm(a: int, a': int, b: int, b': int, k: int, p: int, p': int, c: int)
    requires Cong(a, a', M) && Cong(b, b', M) && Cong(p, p', M)
    ensures Cong((a + M - b + M - k * p % M) * c % M, (a' - b' - k * p') * c, M)
  {
    hide Cong;
    CongSelf(k, M);
    CongSelf(c, M);
    CongMulMod(k, k, p, p', M);
    CongSub(a, a', b, b', M);
    CongSub(a - b, a' - b', k * p % M, k * p', M);
    var x := a - b - k * p % M;
    CongShift(x, 2, M);
    CongTrans(x + 2 * M, x, a' - b' - k * p', M);
    CongMulMod(x + 2 * M, a' - b' - k * p', c, c, M);
    assert a + M - b + M - k * p % M == x + 2 * M;
  }

  lemma BlockExpanded(v: int, c: int, l: int, k: int, r: int)
    ensures Block(v, c, l, k, r) == (l * c + r * k + v * k * c) * v
  {
    assert c * (l + k * v) == l * c + v * k * c by {
      assert c * (l + k * v) == c * l + c * (k * v);
      assert c * (k * v) == v * k * c;
    }
  }

  lemma NodeTermIsCross(sh: seq<int>, s: seq<int>, s2: seq<int>, sr: seq<int>, s2r: seq<int>, b: nat, m: nat, e: nat)
    requires Prefixes(sh, s, s2, sr, s2r) && b <= m < e <= |sh| && LeastAt(sh, b, m, e)
    ensures Cong(NodeTerm(sh, s, s2, sr, s2r, b, m, e), Cross(sh, b, m, e), M)
  {
    var v, c, k := sh[m], e - m, m + 1 - b;
    var l, r := Lefts(sh, b, m), Rights(sh, m + 1, e + 1);
    CrossFormula(sh, b, b, m, e);
    LeftsFromSuffixes(sh, b, m);
    RightsFromPrefixes(sh, m + 1, e);
    BlockExpanded(v, c, l, k, r);
    PrefixTerm(s2r[b], S2R(sh, b), s2r[m], S2R(sh, m), m - b, sr[m], Total(sh, m, |sh|), c);
    PrefixTerm(s2[e], S2(sh, e), s2[m + 1], S2(sh, m + 1), e - 1 - m, s[m + 1], Total(sh, 0, m + 1), k);
    SumOfTerms((s2r[b] + M - s2r[m] + M - (m - b) * sr[m] % M) * c % M,
               (s2[e] + M - s2[m + 1] + M - (e - 1 - m) * s[m + 1] % M) * k % M, v, c, l, k, r);
  }

  lemma SumOfTerms(left: int, right: int, v: int, c: int, l: int, k: int, r: int)
    requires Cong(left, l * c, M) && Cong(right, r * k, M)
    ensures Cong((left + right + v * k % M * c % M) * v % M, (l * c + r * k + v * k * c) * v, M)
  {
    hide Cong;
    CongSelf(v, M);
    CongSelf(c, M);
    CongMod(v * k, M);
    CongMulMod(v * k % M, v * k, c, c, M);
    CongAdd(left, l * c, right, r * k, M);
    CongAdd(left + right, l * c + r * k, v * k % M * c % M, v * k * c, M);
    CongMulMod(left + right + v * k % M * c % M, l * c + r * k + v * k * c, v, v, M);
  }

  class Solution {
    var sh: seq<int>
    var s: seq<int>
    var s2: seq<int>
    var sr: seq<int>
    var s2r: seq<int>
    var lChild: seq<int>
    var rChild: seq<int>

    constructor ()
    {
      sh, s, s2, sr, s2r, lChild, rChild := [], [], [], [], [], [], [];
    }

    /** The sum over the subarrays of b..e, modulo M; the larger child is handled by the loop, the other by a call, so that
        the depth of the calls is at most logarithmic. */
    method Solve(root: int, b: nat, e: nat) returns (res: int, ghost depth: nat)
      requires Prefixes(sh, s, s2, sr, s2r) && |lChild| == |rChild| == |sh|
      requires b <= e <= |sh| && IsTree(sh, lChild, rChild, root, b, e)
      ensures 0 <= res < M && Cong(res, Strength(sh, b, e), M)
      ensures Pow2(depth) <= e - b + 1
      decreases e - b
    {
      hide Prefixes, Cong, NodeTerm, Pow2;
      Shallow();
      res, depth := 0, 0;
      var node, lo, hi := root, b, e;
      PrefixLengths(sh, s, s2, sr, s2r);
      StartSum(sh, b, e);
      while node != -1
        invariant b <= lo <= hi <= e && IsTree(sh, lChild, rChild, node, lo, hi)
        invariant Pow2(depth) <= e - b + 1
        invariant 0 <= res < M && Cong(res, Strength(sh, b, e) - Strength(sh, lo, hi), M)
        decreases hi - lo
      {
        var m: nat := node;
        NodeTermIsCross(sh, s, s2, sr, s2r, lo, m, hi);
        StrengthSplit(sh, lo, m, hi);
        var term := NodeTerm(sh, s, s2, sr, s2r, lo, m, hi);
        ghost var before := res;
        res := (res + term) % M;
        var b1: nat, e1: nat, b2: nat, e2: nat := lo, m, m + 1, hi;
        var child, newRoot := rChild[m], lChild[m];
        if e1 - b1 < e2 - b2 {
          b1, b2, e1, e2 := b2, b1, e2, e1;
          child, newRoot := lChild[m], rChild[m];
        }
        var side, below := Solve(child, b2, e2);
        OneDeeper(below, e2 - b2, e1 - b1);
        if depth <= below { depth := below + 1; }
        AddBoth(before, term, side, Strength(sh, b, e), Strength(sh, lo, hi), Cross(sh, lo, m, hi),
                Strength(sh, b2, e2), Strength(sh, b1, e1));
        res := (res + side) % M;
        lo, hi, node := b1, e1, newRoot;
      }
      EndSum(sh, res, b, e, lo, hi);
    }

    /** The sum of minimum times sum over all non-empty subarrays, modulo 10^9 + 7. */
    method TotalStrength(strengths: seq<int>) returns (res: int)
      requires strengths != []
      modifies this
      ensures res == Strength(strengths, 0, |strengths|) % 1_000_000_007
    {
      hide Cong, PrefixesUpTo, SuffixesFrom;
      sh := strengths;
      var n := |sh|;
      s, s2 := seq(n + 1, _ => 0), seq(n + 1, _ => 0);
      sr, s2r := s, s2;
      ZeroArrays(sh, s);
      for i := 0 to n
        invariant sh == strengths && |s| == |s2| == n + 1 && PrefixesUpTo(sh, s, s2, i)
        invariant |sr| == |s2r| == n + 1 && SuffixesFrom(sh, sr, s2r, n)
      {
        var x := (s[i] + sh[i]) % M;
        var y := (s2[i] + x) % M;
        PrefixStep(sh, s, s2, i, x, y);
        s, s2 := s[i + 1 := x], s2[i + 1 := y];
      }
      for i := n downto 0
        invariant sh == strengths && PrefixesUpTo(sh, s, s2, n)
        invariant |sr| == |s2r| == n + 1 && SuffixesFrom(sh, sr, s2r, i)
      {
        var x := (sr[i + 1] + sh[i]) % M;
        var y := (s2r[i + 1] + x) % M;
        SuffixStep(sh, sr, s2r, i, x, y);
        sr, s2r := sr[i := x], s2r[i := y];
      }
      var root;
      lChild, rChild, root := GetCartesianTree(sh);
      ghost var depth;
      res, depth := Solve(root, 0, n);
      SameMod(res, Strength(sh, 0, n), M);
      SmallMod(res);
    }
  }

  lemma Shallow()
    ensures Pow2(0) == 1
  {}

  /** A call for the smaller of two parts may be nested one deeper than that part alone allows. */
  lemma OneDeeper(depth: nat, small: nat, large: nat)
    requires Pow2(depth) <= small + 1 && small <= large
    ensures Pow2(depth + 1) <= small + large + 2
  {}

  lemma PrefixLengths(sh: seq<int>, s: seq<int>, s2: seq<int>, sr: seq<int>, s2r: seq<int>)
    requires Prefixes(sh, s, s2, sr, s2r)
    ensures |s| == |s2| == |sr| == |s2r| == |sh| + 1
  {}

  lemma AddMod(a: int, a': int, b: int, b': int)
    requires Cong(a, a', M) && Cong(b, b', M)
    ensures Cong((a + b) % M, a' + b', M)
  {
    CongAdd(a, a', b, b', M);
    CongModOf(a + b, a' + b', M);
  }

  lemma TotalFirst(sh: seq<int>, i: nat, j: nat)
    requires i < j <= |sh|
    ensures Total(sh, i, j) == sh[i] + Total(sh, i + 1, j)
  {
    TotalSplit(sh, i, i + 1, j);
    assert Total(sh, i, i + 1) == Total(sh, i, i) + sh[i];
  }

  lemma StartSum(sh: seq<int>, b: nat, e: nat)
    requires e <= |sh|
    ensures Cong(0, Strength(sh, b, e) - Strength(sh, b, e), M)
  {
    CongSelf(0, M);
  }

  lemma EndSum(sh: seq<int>, res: int, b: nat, e: nat, lo: nat, hi: nat)
    requires e <= |sh| && hi <= lo && hi <= |sh| && Cong(res, Strength(sh, b, e) - Strength(sh, lo, hi), M)
    ensures Cong(res, Strength(sh, b, e), M)
  {}

  lemma AddBoth(res: int, term: int, side: int, all: int, here: int, cross: int, other: int, rest: int)
    requires Cong(res, all - here, M) && Cong(term, cross, M) && Cong(side, other, M)
    requires here == cross + other + rest
    ensures Cong(((res + term) % M + side) % M, all - rest, M)
  {
    AddMod(res, all - here, term, cross);
    AddMod((res + term) % M, all - here + cross, side, other);
    assert all - here + cross + other == all - rest;
  }

  lemma SmallMod(x: int)
    requires 0 <= x < M
    ensures x % M == x
  {}
}
