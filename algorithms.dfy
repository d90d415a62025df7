/**
 * The sample algorithm collection (target_code/advanced_algorithm_collection.py):
 * a deliberately non-standard longest-common-subsequence table, the 0/1
 * knapsack recursion, the k-th largest element through a bounded min-heap,
 * and the spiral traversal of a rectangular matrix.
 */
module AlgorithmCollection {
  import opened Wrappers
  import opened Sequences

  // ---------------------------------------------------------------------
  // Longest common subsequence table
  // ---------------------------------------------------------------------

  function MaxReal(x: real, y: real): real
  {
    if x >= y then x else y
  }

  /**
   * Cell (i, j) of the table the program fills.  A match adds 1 to the
   * diagonal, plus 0.5 when the characters two places back also match; a
   * mismatch takes the larger neighbour, except that equal neighbours give
   * that value plus 1 (the source's conditional increment is always 1 on
   * the mismatch branch).
   */
  function LcsCell(a: string, b: string, i: nat, j: nat): real
    requires i <= |a| && j <= |b|
    decreases i + j
  {
    if i == 0 || j == 0 then 0.0
    else if a[i - 1] == b[j - 1] then
      1.0 + LcsCell(a, b, i - 1, j - 1)
        + (if i > 2 && j > 2 && a[i - 3] == b[j - 3] then 0.5 else 0.0)
    else
      var up := LcsCell(a, b, i - 1, j);
      var left := LcsCell(a, b, i, j - 1);
      if up == left then up + 1.0 else MaxReal(up, left)
  }

  /** The same table on integers counting halves. */
  function DoubledCell(a: string, b: string, i: nat, j: nat): nat
    requires i <= |a| && j <= |b|
    decreases i + j
  {
    if i == 0 || j == 0 then 0
    else if a[i - 1] == b[j - 1] then
      2 + DoubledCell(a, b, i - 1, j - 1)
        + (if i > 2 && j > 2 && a[i - 3] == b[j - 3] then 1 else 0)
    else
      var up := DoubledCell(a, b, i - 1, j);
      var left := DoubledCell(a, b, i, j - 1);
      if up == left then up + 2 else if up >= left then up else left
  }

  /** The textbook longest-common-subsequence length of two prefixes. */
  function Lcs(a: string, b: string, i: nat, j: nat): nat
    requires i <= |a| && j <= |b|
    decreases i + j
  {
    if i == 0 || j == 0 then 0
    else if a[i - 1] == b[j - 1] then 1 + Lcs(a, b, i - 1, j - 1)
    else
      var up := Lcs(a, b, i - 1, j);
      var left := Lcs(a, b, i, j - 1);
      if up >= left then up else left
  }

  /** Every cell is a whole multiple of one half. */
  lemma {:induction false} LcsCellIsHalfInteger(a: string, b: string, i: nat, j: nat)
    requires i <= |a| && j <= |b|
    ensures LcsCell(a, b, i, j) == DoubledCell(a, b, i, j) as real / 2.0
    decreases i + j
  {
    if i == 0 || j == 0 {
    } else if a[i - 1] == b[j - 1] {
      LcsCellIsHalfInteger(a, b, i - 1, j - 1);
    } else {
      LcsCellIsHalfInteger(a, b, i - 1, j);
      LcsCellIsHalfInteger(a, b, i, j - 1);
    }
  }

  /** The table never falls below the true common-subsequence length. */
  lemma {:induction false} LcsCellAtLeastLcs(a: string, b: string, i: nat, j: nat)
    requires i <= |a| && j <= |b|
    ensures LcsCell(a, b, i, j) >= Lcs(a, b, i, j) as real
    decreases i + j
  {
    if i == 0 || j == 0 {
    } else if a[i - 1] == b[j - 1] {
      LcsCellAtLeastLcs(a, b, i - 1, j - 1);
    } else {
      LcsCellAtLeastLcs(a, b, i - 1, j);
      LcsCellAtLeastLcs(a, b, i, j - 1);
    }
  }

  /** Two inputs on which the table is not the common-subsequence length. */
  lemma LcsCellIsNotTextbook()
    ensures LcsCell("a", "b", 1, 1) == 1.0 && Lcs("a", "b", 1, 1) == 0
    ensures LcsCell("abc", "abc", 3, 3) == 3.5 && Lcs("abc", "abc", 3, 3) == 3
  {
    assert LcsCell("abc", "abc", 1, 1) == 1.0;
    assert LcsCell("abc", "abc", 2, 2) == 2.0;
    assert Lcs("abc", "abc", 2, 2) == 2;
  }

  /** `longest_common_subsequence`: fills the (m+1) x (n+1) table row by row. */
  method LongestCommonSubsequence(text1: string, text2: string) returns (r: real)
    ensures r == LcsCell(text1, text2, |text1|, |text2|)
    ensures text1 == [] || text2 == [] ==> r == 0.0
  {
    var m, n := |text1|, |text2|;
    var dp := new real[m + 1, n + 1]((i, j) => 0.0);
    for i := 1 to m + 1
      invariant forall p, q :: 0 <= p < i && 0 <= q <= n ==> dp[p, q] == LcsCell(text1, text2, p, q)
      invariant forall p :: i <= p <= m ==> dp[p, 0] == 0.0
    {
      FillRow(dp, text1, text2, i);
    }
    r := dp[m, n];
  }

  /** One pass of the inner loop: row `i` of the table, left to right. */
  method FillRow(dp: array2<real>, text1: string, text2: string, i: nat)
    requires dp.Length0 == |text1| + 1 && dp.Length1 == |text2| + 1
    requires 1 <= i <= |text1|
    requires forall p, q :: 0 <= p < i && 0 <= q <= |text2| ==> dp[p, q] == LcsCell(text1, text2, p, q)
    requires dp[i, 0] == 0.0
    modifies dp
    ensures forall p, q :: 0 <= p <= i && 0 <= q <= |text2| ==> dp[p, q] == LcsCell(text1, text2, p, q)
    ensures forall p, q :: 0 <= p < dp.Length0 && p != i && 0 <= q < dp.Length1 ==> dp[p, q] == old(dp[p, q])
  {
    var n := |text2|;
    for j := 1 to n + 1
      invariant forall q :: 0 <= q < j ==> dp[i, q] == LcsCell(text1, text2, i, q)
      invariant forall p, q :: 0 <= p < dp.Length0 && p != i && 0 <= q < dp.Length1 ==> dp[p, q] == old(dp[p, q])
    {
      var diag, up, left := dp[i - 1, j - 1], dp[i - 1, j], dp[i, j - 1];
      var cell: real;
      if text1[i - 1] == text2[j - 1] {
        cell := 1.0 + diag;
        if i > 2 && j > 2 && text1[i - 3] == text2[j - 3] {
          cell := cell + 0.5;
        }
      } else {
        cell := MaxReal(up, left);
        if up == left {
          cell := up + (if text1[i - 1] != text2[j - 1] then 1.0 else 0.0);
        }
      }
      dp[i, j] := cell;
    }
  }

  // ---------------------------------------------------------------------
  // 0/1 knapsack
  // ---------------------------------------------------------------------

  /**
   * `knapsack_01_recursive` over the first `n` items: nothing fits once no
   * item or no capacity is left; an item heavier than the capacity is
   * skipped; otherwise the better of taking and leaving it.
   */
  function Knapsack(weights: seq<int>, values: seq<int>, capacity: int, n: nat): (r: int)
    requires n <= |weights| && n <= |values|
    ensures r >= 0
    decreases n
  {
    if n == 0 || capacity == 0 then 0
    else if weights[n - 1] > capacity then Knapsack(weights, values, capacity, n - 1)
    else
      var take := values[n - 1] + Knapsack(weights, values, capacity - weights[n - 1], n - 1);
      var leave := Knapsack(weights, values, capacity, n - 1);
      if take >= leave then take else leave
  }

  /** One more item on offer never lowers the best value. */
  lemma KnapsackGrowsWithItems(weights: seq<int>, values: seq<int>, capacity: int, n: nat)
    requires 0 < n <= |weights| && n <= |values|
    ensures Knapsack(weights, values, capacity, n) >= Knapsack(weights, values, capacity, n - 1)
  {
  }

  /** Total weight and value of a choice of the first |sel| items. */
  function ChosenWeight(weights: seq<int>, sel: seq<bool>): int
    requires |sel| <= |weights|
    decreases |sel|
  {
    if sel == [] then 0
    else
      var k := |sel| - 1;
      ChosenWeight(weights, sel[..k]) + (if sel[k] then weights[k] else 0)
  }

  function ChosenValue(values: seq<int>, sel: seq<bool>): int
    requires |sel| <= |values|
    decreases |sel|
  {
    if sel == [] then 0
    else
      var k := |sel| - 1;
      ChosenValue(values, sel[..k]) + (if sel[k] then values[k] else 0)
  }

  predicate PositiveWeights(weights: seq<int>)
  {
    forall i :: 0 <= i < |weights| ==> weights[i] > 0
  }

  /** A choice that attains the recursion's value. */
  function KnapsackChoice(weights: seq<int>, values: seq<int>, capacity: int, n: nat): (sel: seq<bool>)
    requires n <= |weights| && n <= |values|
    ensures |sel| == n
    decreases n
  {
    if n == 0 || capacity == 0 then NoneChosen(n)
    else if weights[n - 1] > capacity then KnapsackChoice(weights, values, capacity, n - 1) + [false]
    else
      var take := values[n - 1] + Knapsack(weights, values, capacity - weights[n - 1], n - 1);
      var leave := Knapsack(weights, values, capacity, n - 1);
      if take >= leave then KnapsackChoice(weights, values, capacity - weights[n - 1], n - 1) + [true]
      else KnapsackChoice(weights, values, capacity, n - 1) + [false]
  }

  /** The choice that takes none of the first `n` items. */
  function NoneChosen(n: nat): (sel: seq<bool>)
    ensures |sel| == n
  {
    if n == 0 then [] else NoneChosen(n - 1) + [false]
  }

  lemma {:induction false} NothingChosen(weights: seq<int>, values: seq<int>, n: nat)
    requires n <= |weights| && n <= |values|
    ensures ChosenWeight(weights, NoneChosen(n)) == 0
    ensures ChosenValue(values, NoneChosen(n)) == 0
    decreases n
  {
    if n > 0 {
      assert NoneChosen(n)[..n - 1] == NoneChosen(n - 1);
      NothingChosen(weights, values, n - 1);
    }
  }

  /** Deciding on one more item adds its weight and value when it is taken. */
  lemma ChosenSnoc(weights: seq<int>, values: seq<int>, init: seq<bool>, b: bool)
    requires |init| < |weights| && |init| < |values|
    ensures ChosenWeight(weights, init + [b]) == ChosenWeight(weights, init) + (if b then weights[|init|] else 0)
    ensures ChosenValue(values, init + [b]) == ChosenValue(values, init) + (if b then values[|init|] else 0)
  {
    assert (init + [b])[..|init|] == init;
  }

  /** With a non-negative capacity the recursion's value is attained by a load that fits. */
  lemma KnapsackIsAttained(weights: seq<int>, values: seq<int>, capacity: int, n: nat)
    requires n <= |weights| && n <= |values|
    requires capacity >= 0
    ensures ChosenWeight(weights, KnapsackChoice(weights, values, capacity, n)) <= capacity
    ensures ChosenValue(values, KnapsackChoice(weights, values, capacity, n)) == Knapsack(weights, values, capacity, n)
  {
    KnapsackChoiceFits(weights, values, capacity, n);
    KnapsackChoiceValue(weights, values, capacity, n);
  }

  lemma {:induction false} KnapsackChoiceFits(weights: seq<int>, values: seq<int>, capacity: int, n: nat)
    requires n <= |weights| && n <= |values|
    requires capacity >= 0
    ensures ChosenWeight(weights, KnapsackChoice(weights, values, capacity, n)) <= capacity
    decreases n
  {
    if n == 0 || capacity == 0 {
      NothingChosen(weights, values, n);
    } else {
      var taken := TakesLast(weights, values, capacity, n);
      var c := if taken then capacity - weights[n - 1] else capacity;
      var init := KnapsackChoice(weights, values, c, n - 1);
      var extra := if taken then weights[n - 1] else 0;
      assert c + extra == capacity;
      calc {
        ChosenWeight(weights, KnapsackChoice(weights, values, capacity, n));
        == { KnapsackChoiceStep(weights, values, capacity, n); }
        ChosenWeight(weights, init + [taken]);
        == { ChosenSnoc(weights, values, init, taken); }
        ChosenWeight(weights, init) + extra;
        <= { KnapsackChoiceFits(weights, values, c, n - 1); }
        c + extra;
      }
    }
  }

  lemma {:induction false} KnapsackChoiceValue(weights: seq<int>, values: seq<int>, capacity: int, n: nat)
    requires n <= |weights| && n <= |values|
    ensures ChosenValue(values, KnapsackChoice(weights, values, capacity, n)) == Knapsack(weights, values, capacity, n)
    decreases n
  {
    if n == 0 || capacity == 0 {
      NothingChosen(weights, values, n);
    } else {
      var taken := TakesLast(weights, values, capacity, n);
      var c := if taken then capacity - weights[n - 1] else capacity;
      var init := KnapsackChoice(weights, values, c, n - 1);
      var bonus := if taken then values[n - 1] else 0;
      calc {
        ChosenValue(values, KnapsackChoice(weights, values, capacity, n));
        == { KnapsackChoiceStep(weights, values, capacity, n); }
        ChosenValue(values, init + [taken]);
        == { ChosenSnoc(weights, values, init, taken); }
        ChosenValue(values, init) + bonus;
        == { KnapsackChoiceValue(weights, values, c, n - 1); }
        Knapsack(weights, values, c, n - 1) + bonus;
        == { KnapsackChoiceStep(weights, values, capacity, n); }
        Knapsack(weights, values, capacity, n);
      }
    }
  }

  /** Whether the recursion takes item `n - 1` (it fits and taking it is no worse). */
  predicate TakesLast(weights: seq<int>, values: seq<int>, capacity: int, n: nat)
    requires 0 < n <= |weights| && n <= |values|
  {
    weights[n - 1] <= capacity &&
    values[n - 1] + Knapsack(weights, values, capacity - weights[n - 1], n - 1)
      >= Knapsack(weights, values, capacity, n - 1)
  }

  /** One step of the recursion and of the choice that attains it. */
  lemma KnapsackChoiceStep(weights: seq<int>, values: seq<int>, capacity: int, n: nat)
    requires 0 < n <= |weights| && n <= |values| && capacity != 0
    ensures var taken := TakesLast(weights, values, capacity, n);
      var c := if taken then capacity - weights[n - 1] else capacity;
      KnapsackChoice(weights, values, capacity, n) == KnapsackChoice(weights, values, c, n - 1) + [taken] &&
      Knapsack(weights, values, capacity, n)
        == (if taken then values[n - 1] else 0) + Knapsack(weights, values, c, n - 1)
  {
  }

  lemma {:induction false} ChosenWeightNonNegative(weights: seq<int>, sel: seq<bool>)
    requires |sel| <= |weights| && PositiveWeights(weights)
    ensures ChosenWeight(weights, sel) >= 0
    ensures ChosenWeight(weights, sel) == 0 ==> forall i :: 0 <= i < |sel| ==> !sel[i]
    decreases |sel|
  {
    if sel != [] {
      var k := |sel| - 1;
      ChosenWeightNonNegative(weights, sel[..k]);
      assert forall i :: 0 <= i < k ==> sel[..k][i] == sel[i];
    }
  }

  lemma {:induction false} UnchosenHasNoValue(values: seq<int>, sel: seq<bool>)
    requires |sel| <= |values|
    requires forall i :: 0 <= i < |sel| ==> !sel[i]
    ensures ChosenValue(values, sel) == 0
    decreases |sel|
  {
    if sel != [] {
      var k := |sel| - 1;
      assert forall i :: 0 <= i < k ==> sel[..k][i] == sel[i];
      UnchosenHasNoValue(values, sel[..k]);
    }
  }

  /** When the last item fits, the value is at least that of taking it. */
  lemma KnapsackTakeBound(weights: seq<int>, values: seq<int>, capacity: int, n: nat)
    requires 0 < n <= |weights| && n <= |values|
    requires capacity != 0 && weights[n - 1] <= capacity
    ensures Knapsack(weights, values, capacity, n)
         >= values[n - 1] + Knapsack(weights, values, capacity - weights[n - 1], n - 1)
  {
  }

  /** With positive weights no load that fits is worth more than the recursion's value. */
  lemma {:induction false} KnapsackIsOptimal(weights: seq<int>, values: seq<int>, capacity: int, sel: seq<bool>)
    requires |sel| <= |weights| && |sel| <= |values|
    requires PositiveWeights(weights)
    requires ChosenWeight(weights, sel) <= capacity
    ensures ChosenValue(values, sel) <= Knapsack(weights, values, capacity, |sel|)
    decreases |sel|
  {
    var n := |sel|;
    if n == 0 {
    } else if capacity == 0 {
      ChosenWeightNonNegative(weights, sel);
      UnchosenHasNoValue(values, sel);
    } else {
      var k := n - 1;
      var rest := sel[..k];
      var w := weights[k];
      assert ChosenWeight(weights, sel) == ChosenWeight(weights, rest) + (if sel[k] then w else 0);
      assert ChosenValue(values, sel) == ChosenValue(values, rest) + (if sel[k] then values[k] else 0);
      ChosenWeightNonNegative(weights, rest);
      if sel[k] {
        assert w <= capacity;
        KnapsackIsOptimal(weights, values, capacity - w, rest);
        KnapsackTakeBound(weights, values, capacity, n);
      } else {
        KnapsackIsOptimal(weights, values, capacity, rest);
        KnapsackGrowsWithItems(weights, values, capacity, n);
      }
    }
  }

  /** An item of weight zero is never taken once the capacity is zero. */
  lemma ZeroWeightItemIgnored()
    ensures Knapsack([0], [5], 0, 1) == 0
    ensures ChosenWeight([0], [true]) == 0 && ChosenValue([5], [true]) == 5
  {
    assert [true][..0] == [];
  }

  /** The item set of the module's own example. */
  lemma KnapsackExample()
    ensures Knapsack([10, 20, 30, 40, 50], [60, 100, 120, 150, 200], 80, 5) == 360
  {
  }

  // ---------------------------------------------------------------------
  // k-th largest element
  // ---------------------------------------------------------------------

  /** The `ValueError` raised for an empty list or an out-of-range `k`. */
  datatype InputError = ValueError

  /** How many elements of `s` are at least `v`. */
  function CountAtLeast(s: seq<int>, v: int): nat
    decreases |s|
  {
    if s == [] then 0 else (if s[0] >= v then 1 else 0) + CountAtLeast(s[1..], v)
  }

  /**
   * `x` is the k-th largest element of `nums`, counting repeated values:
   * it occurs in `nums`, at least `k` elements are `>= x` and fewer than `k`
   * are `> x`.
   */
  predicate IsKthLargest(nums: seq<int>, k: int, x: int)
  {
    x in nums && CountAtLeast(nums, x + 1) < k <= CountAtLeast(nums, x)
  }

  lemma {:induction false} CountAtLeastAppend(a: seq<int>, b: seq<int>, v: int)
    ensures CountAtLeast(a + b, v) == CountAtLeast(a, v) + CountAtLeast(b, v)
    decreases |a|
  {
    if a == [] {
      assert a + b == b;
    } else {
      assert (a + b)[0] == a[0];
      assert (a + b)[1..] == a[1..] + b;
      CountAtLeastAppend(a[1..], b, v);
    }
  }

  /** The count is the length exactly when every element is at least `v`. */
  lemma {:induction false} CountAtLeastBounds(s: seq<int>, v: int)
    ensures CountAtLeast(s, v) <= |s|
    ensures CountAtLeast(s, v) == |s| <==> forall i :: 0 <= i < |s| ==> s[i] >= v
    decreases |s|
  {
    if s != [] {
      CountAtLeastBounds(s[1..], v);
      if forall i :: 0 <= i < |s| ==> s[i] >= v {
        assert forall i :: 0 <= i < |s| - 1 ==> s[1..][i] == s[i + 1];
      } else {
        var i :| 0 <= i < |s| && s[i] < v;
        if i > 0 {
          assert s[1..][i - 1] == s[i];
        }
      }
    }
  }

  lemma {:induction false} CountAtLeastAntitone(s: seq<int>, a: int, b: int)
    requires a <= b
    ensures CountAtLeast(s, b) <= CountAtLeast(s, a)
    decreases |s|
  {
    if s != [] {
      CountAtLeastAntitone(s[1..], a, b);
    }
  }

  /** The k-th largest element, when it exists, is unique. */
  lemma KthLargestIsUnique(nums: seq<int>, k: int, x: int, y: int)
    requires IsKthLargest(nums, k, x) && IsKthLargest(nums, k, y)
    ensures x == y
  {
    if x < y {
      CountAtLeastAntitone(nums, x + 1, y);
    } else if y < x {
      CountAtLeastAntitone(nums, y + 1, x);
    }
  }

  lemma RemoveAtCount(s: seq<int>, j: nat, v: int)
    requires j < |s|
    ensures CountAtLeast(RemoveAt(s, j), v) + (if s[j] >= v then 1 else 0) == CountAtLeast(s, v)
    ensures forall x :: x in RemoveAt(s, j) ==> x in s
  {
    assert s == s[..j] + [s[j]] + s[j + 1..];
    CountAtLeastAppend(s[..j] + [s[j]], s[j + 1..], v);
    CountAtLeastAppend(s[..j], [s[j]], v);
    CountAtLeastAppend(s[..j], s[j + 1..], v);
  }

  /** The first position of a smallest element: where `heappop` takes from. */
  function MinPos(s: seq<int>): (j: nat)
    requires s != []
    ensures j < |s|
    ensures forall i :: 0 <= i < |s| ==> s[j] <= s[i]
    decreases |s|
  {
    if |s| == 1 then 0
    else
      var j := MinPos(s[1..]);
      if s[0] <= s[1 + j] then 0 else 1 + j
  }

  function MinNat(x: nat, y: nat): nat
  {
    if x <= y then x else y
  }

  /**
   * A heap of size min(|prefix|, k) that holds the k largest elements of
   * `prefix` still does so for `prefix + [x]` after pushing `x` and, when it
   * has grown past `k`, popping its smallest element.
   */
  lemma PushPopKeepsLargest(heap: seq<int>, prefix: seq<int>, x: int, k: nat)
    requires k >= 1
    requires |heap| == MinNat(|prefix|, k)
    requires forall v :: CountAtLeast(heap, v) == MinNat(|heap|, CountAtLeast(prefix, v))
    ensures var h1 := heap + [x];
      var h := if |h1| > k then RemoveAt(h1, MinPos(h1)) else h1;
      |h| == MinNat(|prefix| + 1, k) &&
      forall v :: CountAtLeast(h, v) == MinNat(|h|, CountAtLeast(prefix + [x], v))
  {
    var h1 := heap + [x];
    var h := if |h1| > k then RemoveAt(h1, MinPos(h1)) else h1;
    forall v
      ensures CountAtLeast(h, v) == MinNat(|h|, CountAtLeast(prefix + [x], v))
    {
      PushPopCountAt(heap, prefix, x, k, v);
    }
  }

  /** The same, for the count of elements at least one `v`. */
  lemma PushPopCountAt(heap: seq<int>, prefix: seq<int>, x: int, k: nat, v: int)
    requires k >= 1
    requires |heap| == MinNat(|prefix|, k)
    requires forall w :: CountAtLeast(heap, w) == MinNat(|heap|, CountAtLeast(prefix, w))
    ensures var h1 := heap + [x];
      var h := if |h1| > k then RemoveAt(h1, MinPos(h1)) else h1;
      CountAtLeast(h, v) == MinNat(|h|, CountAtLeast(prefix + [x], v))
  {
    var h1 := heap + [x];
    CountAtLeastAppend(heap, [x], v);
    CountAtLeastAppend(prefix, [x], v);
    CountAtLeastBounds(prefix, v);
    CountAtLeastBounds(heap, v);
    if |h1| > k {
      var m := MinPos(h1);
      RemoveAtCount(h1, m, v);
      CountAtLeastBounds(h1, v);
      if h1[m] >= v {
        assert forall i :: 0 <= i < |heap| ==> heap[i] == h1[i];
      } else if x >= v {
        assert m < |heap| && heap[m] == h1[m];
      }
    }
  }

  /**
   * `find_kth_largest`: pushes every number onto a min-heap and pops the
   * smallest whenever it holds more than `k`; the heap's smallest element
   * is the answer.
   */
  method FindKthLargest(nums: seq<int>, k: int) returns (r: Result<int, InputError>)
    ensures r.Failure? <==> nums == [] || k <= 0 || k > |nums|
    ensures r.Success? ==> IsKthLargest(nums, k, r.value)
  {
    if nums == [] || k <= 0 || k > |nums| {
      return Failure(ValueError);
    }
    var minHeap: seq<int> := [];
    for i := 0 to |nums|
      invariant |minHeap| == MinNat(i, k)
      invariant forall x :: x in minHeap ==> x in nums
      invariant forall v :: CountAtLeast(minHeap, v) == MinNat(|minHeap|, CountAtLeast(nums[..i], v))
    {
      var num := nums[i];
      PushPopKeepsLargest(minHeap, nums[..i], num, k);
      assert nums[..i + 1] == nums[..i] + [num];
      minHeap := minHeap + [num];
      if |minHeap| > k {
        RemoveAtMembers(minHeap, MinPos(minHeap));
        minHeap := RemoveAt(minHeap, MinPos(minHeap));
      }
    }
    assert nums[..|nums|] == nums;
    // The source's empty-heap fallback (-1) cannot be reached here.
    assert minHeap != [];
    var top := minHeap[MinPos(minHeap)];
    CountAtLeastBounds(minHeap, top);
    CountAtLeastBounds(minHeap, top + 1);
    return Success(top);
  }

  // ---------------------------------------------------------------------
  // Spiral traversal
  // ---------------------------------------------------------------------

  /** A (row, column) position. */
  type Cell = (int, int)

  predicate Rectangular(matrix: seq<seq<int>>)
  {
    forall i :: 0 <= i < |matrix| ==> |matrix[i]| == |matrix[0]|
  }

  /** Number of integers in `lo..hi`, zero when the range is empty. */
  function Len(lo: int, hi: int): nat
  {
    if lo <= hi then hi - lo + 1 else 0
  }

  /** Row `t` from column `l` rightwards to `r`. */
  function TopRow(t: int, l: int, r: int): seq<Cell>
  {
    seq(Len(l, r), k => (t, l + k))
  }

  /** Column `r` from row `t` downwards to `b`. */
  function RightCol(t: int, b: int, r: int): seq<Cell>
  {
    seq(Len(t, b), k => (t + k, r))
  }

  /** Row `b` from column `r` leftwards to `l`. */
  function BottomRow(b: int, l: int, r: int): seq<Cell>
  {
    seq(Len(l, r), k => (b, r - k))
  }

  /** Column `l` from row `b` upwards to `t`. */
  function LeftCol(t: int, b: int, l: int): seq<Cell>
  {
    seq(Len(t, b), k => (b - k, l))
  }

  /** The bottom bound after one pass: lowered only when a bottom row was walked. */
  function NextBottom(t: int, b: int): int
  {
    if t + 1 <= b then b - 1 else b
  }

  /** The left bound after one pass: raised only when a left column was walked. */
  function NextLeft(l: int, r: int): int
  {
    if l <= r - 1 then l + 1 else l
  }

  /** The cells one pass of the loop visits, with bounds top t, bottom b, left l, right r. */
  function Ring(t: int, b: int, l: int, r: int): seq<Cell>
  {
    TopRow(t, l, r) + RightCol(t + 1, b, r)
      + (if t + 1 <= b then BottomRow(b, l, r - 1) else [])
      + (if l <= r - 1 then LeftCol(t + 1, NextBottom(t, b), l) else [])
  }

  /** The cells the loop visits from the given bounds until they cross. */
  function Spiral(t: int, b: int, l: int, r: int): seq<Cell>
    decreases b - t + r - l + 2
  {
    if t <= b && l <= r then
      Ring(t, b, l, r) + Spiral(t + 1, NextBottom(t, b), NextLeft(l, r), r - 1)
    else []
  }

  /** `matrix[i][j]` where it exists. */
  function At(matrix: seq<seq<int>>, c: Cell): int
  {
    if 0 <= c.0 < |matrix| && 0 <= c.1 < |matrix[c.0]| then matrix[c.0][c.1] else 0
  }

  function Values(matrix: seq<seq<int>>, cells: seq<Cell>): (r: seq<int>)
    ensures |r| == |cells|
  {
    seq(|cells|, k requires 0 <= k < |cells| => At(matrix, cells[k]))
  }

  predicate InRect(c: Cell, t: int, b: int, l: int, r: int)
  {
    t <= c.0 <= b && l <= c.1 <= r
  }

  predicate Distinct(s: seq<Cell>)
  {
    forall i, j :: 0 <= i < j < |s| ==> s[i] != s[j]
  }

  lemma DistinctConcat(a: seq<Cell>, b: seq<Cell>)
    requires Distinct(a) && Distinct(b)
    requires forall i, j :: 0 <= i < |a| && 0 <= j < |b| ==> a[i] != b[j]
    ensures Distinct(a + b)
  {
    forall i, j | 0 <= i < j < |a + b|
      ensures (a + b)[i] != (a + b)[j]
    {
      if j < |a| {
      } else if i >= |a| {
        assert (a + b)[i] == b[i - |a|] && (a + b)[j] == b[j - |a|];
      } else {
        assert (a + b)[j] == b[j - |a|];
      }
    }
  }

  /** What each straight piece of a ring contains. */
  lemma TopRowFacts(t: int, l: int, r: int)
    ensures Distinct(TopRow(t, l, r))
    ensures forall c: Cell :: c in TopRow(t, l, r) <==> c.0 == t && l <= c.1 <= r
  {
    forall c: Cell | c.0 == t && l <= c.1 <= r
      ensures c in TopRow(t, l, r)
    {
      assert TopRow(t, l, r)[c.1 - l] == c;
    }
  }

  lemma RightColFacts(t: int, b: int, r: int)
    ensures Distinct(RightCol(t, b, r))
    ensures forall c: Cell :: c in RightCol(t, b, r) <==> t <= c.0 <= b && c.1 == r
  {
    forall c: Cell | t <= c.0 <= b && c.1 == r
      ensures c in RightCol(t, b, r)
    {
      assert RightCol(t, b, r)[c.0 - t] == c;
    }
  }

  lemma BottomRowFacts(b: int, l: int, r: int)
    ensures Distinct(BottomRow(b, l, r))
    ensures forall c: Cell :: c in BottomRow(b, l, r) <==> c.0 == b && l <= c.1 <= r
  {
    forall c: Cell | c.0 == b && l <= c.1 <= r
      ensures c in BottomRow(b, l, r)
    {
      assert BottomRow(b, l, r)[r - c.1] == c;
    }
  }

  lemma LeftColFacts(t: int, b: int, l: int)
    ensures Distinct(LeftCol(t, b, l))
    ensures forall c: Cell :: c in LeftCol(t, b, l) <==> t <= c.0 <= b && c.1 == l
  {
    forall c: Cell | t <= c.0 <= b && c.1 == l
      ensures c in LeftCol(t, b, l)
    {
      assert LeftCol(t, b, l)[b - c.0] == c;
    }
  }

  lemma RingArea(h: int, w: int)
    requires h >= 2 && w >= 2
    ensures w + (h - 1) + (w - 1) + (h - 2) + (h - 2) * (w - 2) == h * w
  {
  }

  /** A ring as its four pieces. */
  lemma RingPieces(t: int, b: int, l: int, r: int)
    ensures Ring(t, b, l, r) == TopRow(t, l, r) + RightCol(t + 1, b, r)
      + (if t + 1 <= b then BottomRow(b, l, r - 1) else [])
      + (if l <= r - 1 then LeftCol(t + 1, NextBottom(t, b), l) else [])
  {
  }

  /** The cells of one pass: inside the bounds, outside the next bounds. */
  lemma RingMembers(t: int, b: int, l: int, r: int)
    requires t <= b && l <= r
    ensures forall c: Cell :: c in Ring(t, b, l, r) <==>
      InRect(c, t, b, l, r) && !InRect(c, t + 1, NextBottom(t, b), NextLeft(l, r), r - 1)
  {
    RingPieces(t, b, l, r);
    TopRowFacts(t, l, r);
    RightColFacts(t + 1, b, r);
    BottomRowFacts(b, l, r - 1);
    LeftColFacts(t + 1, NextBottom(t, b), l);
  }

  /** One pass visits no cell twice. */
  lemma RingDistinct(t: int, b: int, l: int, r: int)
    requires t <= b && l <= r
    ensures Distinct(Ring(t, b, l, r))
  {
    var nb := NextBottom(t, b);
    var top, right := TopRow(t, l, r), RightCol(t + 1, b, r);
    var bottom := if t + 1 <= b then BottomRow(b, l, r - 1) else [];
    var left := if l <= r - 1 then LeftCol(t + 1, nb, l) else [];
    RingPieces(t, b, l, r);
    TopRowFacts(t, l, r);
    RightColFacts(t + 1, b, r);
    BottomRowFacts(b, l, r - 1);
    LeftColFacts(t + 1, nb, l);
    assert Distinct(bottom) && Distinct(left);
    DistinctConcat(top, right);
    DistinctConcat(top + right, bottom);
    DistinctConcat(top + right + bottom, left);
  }

  /** One pass visits the area of the bounds minus the area of the next bounds. */
  lemma RingSize(t: int, b: int, l: int, r: int)
    requires t <= b && l <= r
    ensures |Ring(t, b, l, r)| + Len(t + 1, NextBottom(t, b)) * Len(NextLeft(l, r), r - 1)
      == Len(t, b) * Len(l, r)
  {
    RingPieces(t, b, l, r);
    if t + 1 <= b && l <= r - 1 {
      RingArea(b - t + 1, r - l + 1);
    }
  }

  /**
   * One pass visits each cell of the border of the current rectangle once:
   * exactly the cells inside the bounds that the next bounds exclude.
   */
  lemma RingFacts(t: int, b: int, l: int, r: int)
    requires t <= b && l <= r
    ensures Distinct(Ring(t, b, l, r))
    ensures forall c: Cell :: c in Ring(t, b, l, r) <==>
      InRect(c, t, b, l, r) && !InRect(c, t + 1, NextBottom(t, b), NextLeft(l, r), r - 1)
    ensures |Ring(t, b, l, r)| + Len(t + 1, NextBottom(t, b)) * Len(NextLeft(l, r), r - 1)
      == Len(t, b) * Len(l, r)
  {
    RingDistinct(t, b, l, r);
    RingMembers(t, b, l, r);
    RingSize(t, b, l, r);
  }

  /**
   * From any bounds, the traversal visits every cell inside them exactly
   * once and nothing else.
   */
  lemma {:induction false} SpiralFacts(t: int, b: int, l: int, r: int)
    ensures Distinct(Spiral(t, b, l, r))
    ensures forall c: Cell :: c in Spiral(t, b, l, r) <==> InRect(c, t, b, l, r)
    ensures |Spiral(t, b, l, r)| == Len(t, b) * Len(l, r)
    decreases b - t + r - l + 2
  {
    if t <= b && l <= r {
      var nb, nl := NextBottom(t, b), NextLeft(l, r);
      var ring, rest := Ring(t, b, l, r), Spiral(t + 1, nb, nl, r - 1);
      RingFacts(t, b, l, r);
      SpiralFacts(t + 1, nb, nl, r - 1);
      forall i, j | 0 <= i < |ring| && 0 <= j < |rest|
        ensures ring[i] != rest[j]
      {
        assert ring[i] in ring;
        assert rest[j] in rest;
      }
      DistinctConcat(ring, rest);
    }
  }

  /** For a rows x cols matrix: rows * cols cells, each in range, each once. */
  lemma SpiralVisitsEveryCellOnce(rows: nat, cols: nat)
    ensures |Spiral(0, rows - 1, 0, cols - 1)| == rows * cols
    ensures Distinct(Spiral(0, rows - 1, 0, cols - 1))
    ensures forall c: Cell :: c in Spiral(0, rows - 1, 0, cols - 1) <==> 0 <= c.0 < rows && 0 <= c.1 < cols
  {
    SpiralFacts(0, rows - 1, 0, cols - 1);
  }

  /** `result[k]` is the matrix entry at the k-th visited cell. */
  predicate Records(matrix: seq<seq<int>>, visited: seq<Cell>, result: seq<int>)
  {
    |result| == |visited| && forall k :: 0 <= k < |result| ==> result[k] == At(matrix, visited[k])
  }

  /**
   * `matrix_spiral_traversal`: walks the top row, the right column, the
   * bottom row backwards and the left column upwards, shrinking the bounds
   * after each, until they cross.  The visited cells are tracked in a ghost
   * sequence.
   */
  method MatrixSpiralTraversal(matrix: seq<seq<int>>) returns (result: seq<int>)
    requires Rectangular(matrix)
    ensures matrix == [] || matrix[0] == [] ==> result == []
    ensures matrix != [] && matrix[0] != [] ==>
      result == Values(matrix, Spiral(0, |matrix| - 1, 0, |matrix[0]| - 1))
    ensures |result| == |matrix| * (if matrix == [] then 0 else |matrix[0]|)
  {
    if matrix == [] || matrix[0] == [] {
      return [];
    }
    result := [];
    ghost var visited: seq<Cell> := [];
    var rows, cols := |matrix|, |matrix[0]|;
    var top, bottom, left, right := 0, rows - 1, 0, cols - 1;
    while top <= bottom && left <= right
      invariant 0 <= top && bottom < rows && 0 <= left && right < cols
      invariant Records(matrix, visited, result)
      invariant visited + Spiral(top, bottom, left, right) == Spiral(0, rows - 1, 0, cols - 1)
      decreases bottom - top + right - left + 2
    {
      ghost var v0, t, b, l, r := visited, top, bottom, left, right;
      result, visited, top, bottom, left, right := WalkRing(matrix, result, visited, top, bottom, left, right);
      assert Spiral(t, b, l, r) == Ring(t, b, l, r) + Spiral(top, bottom, left, right);
      ConcatAssoc(v0, Ring(t, b, l, r), Spiral(top, bottom, left, right));
    }
    assert Spiral(top, bottom, left, right) == [];
    assert visited == Spiral(0, rows - 1, 0, cols - 1);
    RecordsAreValues(matrix, visited, result);
    SpiralVisitsEveryCellOnce(rows, cols);
  }

  lemma ConcatAssoc(a: seq<Cell>, b: seq<Cell>, c: seq<Cell>)
    ensures a + b + c == a + (b + c)
  {
  }

  lemma RecordsAreValues(matrix: seq<seq<int>>, visited: seq<Cell>, result: seq<int>)
    requires Records(matrix, visited, result)
    ensures result == Values(matrix, visited)
  {
  }

  /** One pass of the loop body over the border of the current bounds. */
  method WalkRing(matrix: seq<seq<int>>, result: seq<int>, ghost visited: seq<Cell>,
                  top: int, bottom: int, left: int, right: int)
    returns (res: seq<int>, ghost vis: seq<Cell>, top': int, bottom': int, left': int, right': int)
    requires Rectangular(matrix) && 0 <= top <= bottom < |matrix|
    requires 0 <= left <= right < |matrix[0]|
    requires Records(matrix, visited, result)
    ensures vis == visited + Ring(top, bottom, left, right)
    ensures Records(matrix, vis, res)
    ensures top' == top + 1 && bottom' == NextBottom(top, bottom)
    ensures left' == NextLeft(left, right) && right' == right - 1
  {
    top', bottom', left', right' := top, bottom, left, right;
    res, vis := WalkTopRow(matrix, result, visited, top', left', right');
    top' := top' + 1;
    res, vis := WalkRightCol(matrix, res, vis, top', bottom', right');
    right' := right' - 1;
    res, vis, bottom' := WalkBottomRowIfAny(matrix, res, vis, top', bottom', left', right');
    res, vis, left' := WalkLeftColIfAny(matrix, res, vis, top', bottom', left', right');
    RingAppend(visited, vis, top, bottom, left, right);
  }

  /** Appending the four pieces one after the other appends the whole ring. */
  lemma RingAppend(v: seq<Cell>, vis: seq<Cell>, t: int, b: int, l: int, r: int)
    requires vis == v + TopRow(t, l, r) + RightCol(t + 1, b, r)
      + (if t + 1 <= b then BottomRow(b, l, r - 1) else [])
      + (if l <= r - 1 then LeftCol(t + 1, NextBottom(t, b), l) else [])
    ensures vis == v + Ring(t, b, l, r)
  {
    ConcatRegroup(v, TopRow(t, l, r), RightCol(t + 1, b, r),
      if t + 1 <= b then BottomRow(b, l, r - 1) else [],
      if l <= r - 1 then LeftCol(t + 1, NextBottom(t, b), l) else []);
  }

  /** The bottom-row step, taken only while `top <= bottom`; it then lowers the bottom bound. */
  method WalkBottomRowIfAny(matrix: seq<seq<int>>, result: seq<int>, ghost visited: seq<Cell>,
                            top: int, bottom: int, left: int, right: int)
    returns (res: seq<int>, ghost vis: seq<Cell>, bottom': int)
    requires Rectangular(matrix) && 0 <= bottom < |matrix|
    requires 0 <= left <= right + 1 && right < |matrix[0]|
    requires Records(matrix, visited, result)
    ensures vis == visited + (if top <= bottom then BottomRow(bottom, left, right) else [])
    ensures Records(matrix, vis, res)
    ensures bottom' == if top <= bottom then bottom - 1 else bottom
  {
    if top <= bottom {
      res, vis := WalkBottomRow(matrix, result, visited, bottom, left, right);
      bottom' := bottom - 1;
    } else {
      res, vis, bottom' := result, visited, bottom;
      assert visited + [] == visited;
    }
  }

  /** The left-column step, taken only while `left <= right`; it then raises the left bound. */
  method WalkLeftColIfAny(matrix: seq<seq<int>>, result: seq<int>, ghost visited: seq<Cell>,
                          top: int, bottom: int, left: int, right: int)
    returns (res: seq<int>, ghost vis: seq<Cell>, left': int)
    requires Rectangular(matrix) && matrix != [] && 0 <= top <= bottom + 1 && bottom < |matrix|
    requires 0 <= left && right < |matrix[0]|
    requires Records(matrix, visited, result)
    ensures vis == visited + (if left <= right then LeftCol(top, bottom, left) else [])
    ensures Records(matrix, vis, res)
    ensures left' == if left <= right then left + 1 else left
  {
    if left <= right {
      res, vis := WalkLeftCol(matrix, result, visited, top, bottom, left);
      left' := left + 1;
    } else {
      res, vis, left' := result, visited, left;
      assert visited + [] == visited;
    }
  }

  lemma ConcatRegroup(v: seq<Cell>, a: seq<Cell>, b: seq<Cell>, c: seq<Cell>, d: seq<Cell>)
    ensures v + a + b + c + d == v + (a + b + c + d)
  {
  }

  /** `matrix[top][left..right]`, left to right. */
  method WalkTopRow(matrix: seq<seq<int>>, result: seq<int>, ghost visited: seq<Cell>, top: int, left: int, right: int)
    returns (res: seq<int>, ghost vis: seq<Cell>)
    requires Rectangular(matrix) && 0 <= top < |matrix|
    requires 0 <= left <= right + 1 && right < |matrix[0]|
    requires Records(matrix, visited, result)
    ensures vis == visited + TopRow(top, left, right)
    ensures Records(matrix, vis, res)
  {
    res, vis := result, visited;
    for c := left to right + 1
      invariant vis == visited + TopRow(top, left, c - 1)
      invariant Records(matrix, vis, res)
    {
      assert TopRow(top, left, c) == TopRow(top, left, c - 1) + [(top, c)];
      res := res + [matrix[top][c]];
      vis := vis + [(top, c)];
    }
  }

  /** Column `right` from row `top` down to `bottom`. */
  method WalkRightCol(matrix: seq<seq<int>>, result: seq<int>, ghost visited: seq<Cell>, top: int, bottom: int, right: int)
    returns (res: seq<int>, ghost vis: seq<Cell>)
    requires Rectangular(matrix) && matrix != [] && 0 <= top <= bottom + 1 && bottom < |matrix|
    requires 0 <= right < |matrix[0]|
    requires Records(matrix, visited, result)
    ensures vis == visited + RightCol(top, bottom, right)
    ensures Records(matrix, vis, res)
  {
    res, vis := result, visited;
    for row := top to bottom + 1
      invariant vis == visited + RightCol(top, row - 1, right)
      invariant Records(matrix, vis, res)
    {
      assert RightCol(top, row, right) == RightCol(top, row - 1, right) + [(row, right)];
      res := res + [matrix[row][right]];
      vis := vis + [(row, right)];
    }
  }

  /** Row `bottom` from column `right` back to `left`. */
  method WalkBottomRow(matrix: seq<seq<int>>, result: seq<int>, ghost visited: seq<Cell>, bottom: int, left: int, right: int)
    returns (res: seq<int>, ghost vis: seq<Cell>)
    requires Rectangular(matrix) && 0 <= bottom < |matrix|
    requires 0 <= left <= right + 1 && right < |matrix[0]|
    requires Records(matrix, visited, result)
    ensures vis == visited + BottomRow(bottom, left, right)
    ensures Records(matrix, vis, res)
  {
    res, vis := result, visited;
    for c := right + 1 downto left
      invariant vis == visited + BottomRow(bottom, c, right)
      invariant Records(matrix, vis, res)
    {
      assert BottomRow(bottom, c, right) == BottomRow(bottom, c + 1, right) + [(bottom, c)];
      res := res + [matrix[bottom][c]];
      vis := vis + [(bottom, c)];
    }
  }

  /** Column `left` from row `bottom` back up to `top`. */
  method WalkLeftCol(matrix: seq<seq<int>>, result: seq<int>, ghost visited: seq<Cell>, top: int, bottom: int, left: int)
    returns (res: seq<int>, ghost vis: seq<Cell>)
    requires Rectangular(matrix) && matrix != [] && 0 <= top <= bottom + 1 && bottom < |matrix|
    requires 0 <= left < |matrix[0]|
    requires Records(matrix, visited, result)
    ensures vis == visited + LeftCol(top, bottom, left)
    ensures Records(matrix, vis, res)
  {
    res, vis := result, visited;
    for row := bottom + 1 downto top
      invariant vis == visited + LeftCol(row, bottom, left)
      invariant Records(matrix, vis, res)
    {
      assert LeftCol(row, bottom, left) == LeftCol(row + 1, bottom, left) + [(row, left)];
      res := res + [matrix[row][left]];
      vis := vis + [(row, left)];
    }
  }

  /** The traversal starts with the first row, left to right. */
  lemma SpiralStartsWithFirstRow(matrix: seq<seq<int>>)
    requires Rectangular(matrix) && matrix != [] && matrix[0] != []
    ensures Values(matrix, Spiral(0, |matrix| - 1, 0, |matrix[0]| - 1))[..|matrix[0]|] == matrix[0]
  {
    var rows, cols := |matrix|, |matrix[0]|;
    var s := Spiral(0, rows - 1, 0, cols - 1);
    var ring := Ring(0, rows - 1, 0, cols - 1);
    assert s == ring + Spiral(1, NextBottom(0, rows - 1), NextLeft(0, cols - 1), cols - 2);
    assert forall k :: 0 <= k < cols ==> s[k] == ring[k] == (0, k);
  }

  /** A single row is emitted as it stands. */
  lemma SingleRowSpiral(matrix: seq<seq<int>>)
    requires Rectangular(matrix) && |matrix| == 1 && matrix[0] != []
    ensures Values(matrix, Spiral(0, 0, 0, |matrix[0]| - 1)) == matrix[0]
  {
    var cols := |matrix[0]|;
    assert Spiral(1, 0, NextLeft(0, cols - 1), cols - 2) == [];
    assert Ring(0, 0, 0, cols - 1) == TopRow(0, 0, cols - 1);
    assert Spiral(0, 0, 0, cols - 1) == TopRow(0, 0, cols - 1);
  }

  /** A single column is emitted top to bottom. */
  lemma SingleColumnSpiral(matrix: seq<seq<int>>)
    requires matrix != [] && forall i :: 0 <= i < |matrix| ==> |matrix[i]| == 1
    ensures Values(matrix, Spiral(0, |matrix| - 1, 0, 0)) == seq(|matrix|, i requires 0 <= i < |matrix| => matrix[i][0])
  {
    var b := |matrix| - 1;
    var cells := Spiral(0, b, 0, 0);
    SingleColumnCells(b);
    var vs := Values(matrix, cells);
    forall i | 0 <= i < |matrix|
      ensures vs[i] == matrix[i][0]
    {
      assert cells[i] == (i, 0);
    }
  }

  lemma SingleColumnCells(b: nat)
    ensures Spiral(0, b, 0, 0) == RightCol(0, b, 0)
  {
    assert Spiral(1, NextBottom(0, b), 0, -1) == [];
    assert TopRow(0, 0, 0) == [(0, 0)];
    assert BottomRow(b, 0, -1) == [];
    assert Ring(0, b, 0, 0) == [(0, 0)] + RightCol(1, b, 0);
    assert [(0, 0)] + RightCol(1, b, 0) == RightCol(0, b, 0);
  }

  /** The module's own 3 x 3 example. */
  lemma SpiralExample()
    ensures Values([[1, 2, 3], [4, 5, 6], [7, 8, 9]], Spiral(0, 2, 0, 2)) == [1, 2, 3, 6, 9, 8, 7, 4, 5]
  {
  }
}
