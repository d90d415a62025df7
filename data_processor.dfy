/**
 * The in-memory part of the sample CSV processor
 * (target_code/complex_data_processor.py): a range filter over the loaded
 * rows, threshold-based category counting into a dictionary, and a
 * memoised Fibonacci helper whose memo outlives the call.
 *
 * Reading the CSV file and logging are left out; rows arrive already
 * parsed into (id, value, category).
 */
module DataProcessor {
  import opened Wrappers

  /** A parsed row: integer id, numeric value, category name. */
  datatype Row = Row(id: int, value: real, category: string)

  /** `DEFAULT_THRESHOLD`. */
  const DefaultThreshold: real := 500.0

  // ---------------------------------------------------------------------
  // Range filter
  // ---------------------------------------------------------------------

  /** `min_value <= value <= max_value`, where a missing maximum is +infinity. */
  predicate InRange(row: Row, minValue: real, maxValue: Option<real>)
  {
    minValue <= row.value && (maxValue.None? || row.value <= maxValue.value)
  }

  /** The rows in range, in their original order. */
  function Filtered(rows: seq<Row>, minValue: real, maxValue: Option<real>): seq<Row>
    decreases |rows|
  {
    if rows == [] then []
    else (if InRange(rows[0], minValue, maxValue) then [rows[0]] else []) + Filtered(rows[1..], minValue, maxValue)
  }

  /** Filtering distributes over concatenation, so relative order is kept. */
  lemma {:induction false} FilteredAppend(a: seq<Row>, b: seq<Row>, minValue: real, maxValue: Option<real>)
    ensures Filtered(a + b, minValue, maxValue) == Filtered(a, minValue, maxValue) + Filtered(b, minValue, maxValue)
    decreases |a|
  {
    if a == [] {
      assert a + b == b;
    } else {
      assert (a + b)[0] == a[0];
      assert (a + b)[1..] == a[1..] + b;
      FilteredAppend(a[1..], b, minValue, maxValue);
    }
  }

  /** A row is kept exactly when it is one of the rows and in range. */
  lemma {:induction false} FilteredMembers(rows: seq<Row>, minValue: real, maxValue: Option<real>)
    ensures forall x :: x in Filtered(rows, minValue, maxValue) <==> x in rows && InRange(x, minValue, maxValue)
    ensures |Filtered(rows, minValue, maxValue)| <= |rows|
    decreases |rows|
  {
    if rows != [] {
      FilteredMembers(rows[1..], minValue, maxValue);
      assert rows == [rows[0]] + rows[1..];
    }
  }

  // ---------------------------------------------------------------------
  // Category counting
  // ---------------------------------------------------------------------

  /** The base key a row is counted under. */
  function BaseKey(row: Row, threshold: real): string
  {
    row.category +
      (if row.value > threshold then "_HighValue"
       else if row.value <= threshold / 2.0 then "_LowValue"
       else "_MediumValue")
  }

  /** `categories.get(key, 0)`. */
  function Get(m: map<string, nat>, key: string): nat
  {
    if key in m then m[key] else 0
  }

  /** `categories[key] = categories.get(key, 0) + 1`. */
  function Bump(m: map<string, nat>, key: string): map<string, nat>
  {
    m[key := Get(m, key) + 1]
  }

  predicate StartsWithA(s: string)
  {
    |s| > 0 && s[0] == 'A'
  }

  /** The counts one row adds: its base key, and for "A" keys one divisibility key. */
  function CountRow(m: map<string, nat>, row: Row, threshold: real): map<string, nat>
  {
    var key := BaseKey(row, threshold);
    var m1 := Bump(m, key);
    if StartsWithA(key) then
      if row.id % 5 == 0 then Bump(m1, key + "_DivisibleBy5")
      else if row.id % 3 == 0 then Bump(m1, key + "_DivisibleBy3")
      else m1
    else m1
  }

  /** The dictionary after counting `rows` in order. */
  function Categorized(rows: seq<Row>, threshold: real): map<string, nat>
    decreases |rows|
  {
    if rows == [] then map[]
    else CountRow(Categorized(rows[..|rows| - 1], threshold), rows[|rows| - 1], threshold)
  }

  /** How many rows have base key `key`, and how many of those bump each divisibility key. */
  function BaseCount(rows: seq<Row>, threshold: real, key: string): nat
    decreases |rows|
  {
    if rows == [] then 0
    else BaseCount(rows[..|rows| - 1], threshold, key) + (if BaseKey(rows[|rows| - 1], threshold) == key then 1 else 0)
  }

  function Div5Count(rows: seq<Row>, threshold: real, key: string): nat
    decreases |rows|
  {
    if rows == [] then 0
    else
      var row := rows[|rows| - 1];
      Div5Count(rows[..|rows| - 1], threshold, key)
        + (if BaseKey(row, threshold) == key && StartsWithA(key) && row.id % 5 == 0 then 1 else 0)
  }

  function Div3Count(rows: seq<Row>, threshold: real, key: string): nat
    decreases |rows|
  {
    if rows == [] then 0
    else
      var row := rows[|rows| - 1];
      Div3Count(rows[..|rows| - 1], threshold, key)
        + (if BaseKey(row, threshold) == key && StartsWithA(key) && row.id % 5 != 0 && row.id % 3 == 0 then 1 else 0)
  }

  /** Base keys end in 'e' ("...Value"); divisibility keys end in '5' or '3'. */
  predicate IsBaseShape(key: string)
  {
    |key| > 0 && key[|key| - 1] == 'e'
  }

  lemma BaseKeyShape(row: Row, threshold: real)
    ensures IsBaseShape(BaseKey(row, threshold))
  {
  }

  /** Adding the suffix keeps keys apart: equal suffixed keys come from equal keys. */
  lemma SuffixInjective(a: string, b: string, suffix: string)
    requires a + suffix == b + suffix
    ensures a == b
  {
    assert a == (a + suffix)[..|a|];
    assert b == (b + suffix)[..|b|];
  }

  /**
   * Every count in the dictionary is a tally over the rows: a base key
   * counts the rows under it, and its divisibility keys count the rows
   * under it whose id is divisible by 5, or by 3 and not 5, provided the
   * key starts with "A".
   */
  lemma {:induction false} CategorizedCounts(rows: seq<Row>, threshold: real, key: string)
    requires IsBaseShape(key)
    ensures Get(Categorized(rows, threshold), key) == BaseCount(rows, threshold, key)
    ensures Get(Categorized(rows, threshold), key + "_DivisibleBy5") == Div5Count(rows, threshold, key)
    ensures Get(Categorized(rows, threshold), key + "_DivisibleBy3") == Div3Count(rows, threshold, key)
    decreases |rows|
  {
    if rows != [] {
      var init, row := rows[..|rows| - 1], rows[|rows| - 1];
      CategorizedCounts(init, threshold, key);
      CountRowCounts(Categorized(init, threshold), row, threshold, key);
    }
  }

  /** What counting one row adds to a base key and to its two divisibility keys. */
  lemma CountRowCounts(m: map<string, nat>, row: Row, threshold: real, key: string)
    requires IsBaseShape(key)
    ensures Get(CountRow(m, row, threshold), key)
         == Get(m, key) + (if BaseKey(row, threshold) == key then 1 else 0)
    ensures Get(CountRow(m, row, threshold), key + "_DivisibleBy5")
         == Get(m, key + "_DivisibleBy5")
            + (if BaseKey(row, threshold) == key && StartsWithA(key) && row.id % 5 == 0 then 1 else 0)
    ensures Get(CountRow(m, row, threshold), key + "_DivisibleBy3")
         == Get(m, key + "_DivisibleBy3")
            + (if BaseKey(row, threshold) == key && StartsWithA(key) && row.id % 5 != 0 && row.id % 3 == 0 then 1 else 0)
  {
    var k := BaseKey(row, threshold);
    BaseKeyShape(row, threshold);
    var k5, k3 := key + "_DivisibleBy5", key + "_DivisibleBy3";
    assert k5[|k5| - 1] == '5' && k3[|k3| - 1] == '3';
    var r5, r3 := k + "_DivisibleBy5", k + "_DivisibleBy3";
    assert r5[|r5| - 1] == '5' && r3[|r3| - 1] == '3';
    assert k != k5 && k != k3;
    assert r5 != key && r3 != key && r5 != k3 && r3 != k5;
    if r5 == k5 {
      SuffixInjective(k, key, "_DivisibleBy5");
    }
    if r3 == k3 {
      SuffixInjective(k, key, "_DivisibleBy3");
    }
  }

  /**
   * The keys one row bumps: its base key, and, when that key starts with
   * "A", the `_DivisibleBy5` key for an id divisible by 5 or else the
   * `_DivisibleBy3` key for an id divisible by 3.
   */
  predicate KeyOfRow(k: string, row: Row, threshold: real)
  {
    var b := BaseKey(row, threshold);
    k == b ||
    (StartsWithA(b) && row.id % 5 == 0 && k == b + "_DivisibleBy5") ||
    (StartsWithA(b) && row.id % 5 != 0 && row.id % 3 == 0 && k == b + "_DivisibleBy3")
  }

  /** Counting one row adds exactly its keys, raises their counts to at least 1 and lowers nothing. */
  lemma CountRowKeys(m: map<string, nat>, row: Row, threshold: real)
    ensures forall k :: k in CountRow(m, row, threshold) <==> k in m || KeyOfRow(k, row, threshold)
    ensures forall k :: k in m ==> CountRow(m, row, threshold)[k] >= m[k]
    ensures forall k :: KeyOfRow(k, row, threshold) ==> CountRow(m, row, threshold)[k] >= 1
  {
  }

  /**
   * The dictionary holds exactly the keys some row bumps, each with a
   * count of at least 1: a key that no row bumps is absent, not 0.
   */
  lemma {:induction false} CategorizedKeys(rows: seq<Row>, threshold: real)
    ensures forall k :: k in Categorized(rows, threshold) <==>
      exists i :: 0 <= i < |rows| && KeyOfRow(k, rows[i], threshold)
    ensures forall k :: k in Categorized(rows, threshold) ==> Categorized(rows, threshold)[k] >= 1
    decreases |rows|
  {
    if rows != [] {
      var n := |rows| - 1;
      var init := rows[..n];
      var m0 := Categorized(init, threshold);
      CategorizedKeys(init, threshold);
      CountRowKeys(m0, rows[n], threshold);
      assert forall i :: 0 <= i < n ==> init[i] == rows[i];
      forall k | k in Categorized(rows, threshold)
        ensures exists i :: 0 <= i < |rows| && KeyOfRow(k, rows[i], threshold)
      {
        if k in m0 {
          var i :| 0 <= i < n && KeyOfRow(k, init[i], threshold);
          assert KeyOfRow(k, rows[i], threshold);
        } else {
          assert KeyOfRow(k, rows[n], threshold);
        }
      }
      forall k | exists i :: 0 <= i < |rows| && KeyOfRow(k, rows[i], threshold)
        ensures k in Categorized(rows, threshold)
      {
        var i :| 0 <= i < |rows| && KeyOfRow(k, rows[i], threshold);
        if i < n {
          assert KeyOfRow(k, init[i], threshold);
        }
      }
    }
  }

  /** Divisibility keys never outnumber their base key, and are 0 unless the key starts with "A". */
  lemma {:induction false} DivisibleCountsBounded(rows: seq<Row>, threshold: real, key: string)
    ensures Div5Count(rows, threshold, key) + Div3Count(rows, threshold, key) <= BaseCount(rows, threshold, key)
    ensures !StartsWithA(key) ==> Div5Count(rows, threshold, key) == 0 && Div3Count(rows, threshold, key) == 0
    decreases |rows|
  {
    if rows != [] {
      DivisibleCountsBounded(rows[..|rows| - 1], threshold, key);
    }
  }

  /** Sum of the counts of `keys`. */
  function SumCounts(m: map<string, nat>, keys: seq<string>): nat
    decreases |keys|
  {
    if keys == [] then 0 else Get(m, keys[0]) + SumCounts(m, keys[1..])
  }

  function SumBaseCounts(rows: seq<Row>, threshold: real, keys: seq<string>): nat
    decreases |keys|
  {
    if keys == [] then 0 else BaseCount(rows, threshold, keys[0]) + SumBaseCounts(rows, threshold, keys[1..])
  }

  predicate DistinctKeys(keys: seq<string>)
  {
    forall i, j :: 0 <= i < j < |keys| ==> keys[i] != keys[j]
  }

  /** One more row adds one to exactly one key of a list that holds its key once. */
  lemma {:induction false} SumBaseCountsStep(rows: seq<Row>, row: Row, threshold: real, keys: seq<string>)
    requires DistinctKeys(keys)
    ensures SumBaseCounts(rows + [row], threshold, keys)
      == SumBaseCounts(rows, threshold, keys) + (if BaseKey(row, threshold) in keys then 1 else 0)
    decreases |keys|
  {
    var rows' := rows + [row];
    assert rows'[..|rows'| - 1] == rows;
    if keys != [] {
      assert DistinctKeys(keys[1..]) by {
        assert forall i :: 0 <= i < |keys| - 1 ==> keys[1..][i] == keys[i + 1];
      }
      SumBaseCountsStep(rows, row, threshold, keys[1..]);
      assert keys == [keys[0]] + keys[1..];
      if BaseKey(row, threshold) == keys[0] {
        assert BaseKey(row, threshold) !in keys[1..];
      }
    }
  }

  lemma {:induction false} SumCountsAreBaseCounts(rows: seq<Row>, threshold: real, keys: seq<string>)
    requires forall i :: 0 <= i < |keys| ==> IsBaseShape(keys[i])
    ensures SumCounts(Categorized(rows, threshold), keys) == SumBaseCounts(rows, threshold, keys)
    decreases |keys|
  {
    if keys != [] {
      CategorizedCounts(rows, threshold, keys[0]);
      SumCountsAreBaseCounts(rows, threshold, keys[1..]);
    }
  }

  /**
   * Each row bumps exactly one base key, so over any list of distinct base
   * keys that covers every row's key the counts add up to the row count.
   */
  lemma {:induction false} BaseCountsSumToRows(rows: seq<Row>, threshold: real, keys: seq<string>)
    requires DistinctKeys(keys)
    requires forall i :: 0 <= i < |keys| ==> IsBaseShape(keys[i])
    requires forall i :: 0 <= i < |rows| ==> BaseKey(rows[i], threshold) in keys
    ensures SumCounts(Categorized(rows, threshold), keys) == |rows|
    decreases |rows|
  {
    SumCountsAreBaseCounts(rows, threshold, keys);
    if rows == [] {
      ZeroBaseCounts(threshold, keys);
    } else {
      var init := rows[..|rows| - 1];
      BaseCountsSumToRows(init, threshold, keys);
      SumCountsAreBaseCounts(init, threshold, keys);
      SumBaseCountsStep(init, rows[|rows| - 1], threshold, keys);
      assert init + [rows[|rows| - 1]] == rows;
    }
  }

  lemma {:induction false} ZeroBaseCounts(threshold: real, keys: seq<string>)
    ensures SumBaseCounts([], threshold, keys) == 0
    decreases |keys|
  {
    if keys != [] {
      ZeroBaseCounts(threshold, keys[1..]);
    }
  }

  /** Id 15 is divisible by 5 and by 3 but counts only under "_DivisibleBy5". */
  lemma FifteenCountsOnceUnderFive()
    ensures Categorized([Row(15, 100.0, "A")], DefaultThreshold)
      == map["A_LowValue" := 1, "A_LowValue_DivisibleBy5" := 1]
  {
    var rows := [Row(15, 100.0, "A")];
    assert rows[..0] == [];
    var key := BaseKey(rows[0], DefaultThreshold);
    assert key == "A_LowValue";
    assert Categorized(rows, DefaultThreshold) == CountRow(map[], rows[0], DefaultThreshold);
    var m1 := Bump(map[], key);
    assert m1 == map["A_LowValue" := 1];
    assert StartsWithA(key) && 15 % 5 == 0;
    assert CountRow(map[], rows[0], DefaultThreshold) == Bump(m1, key + "_DivisibleBy5");
    assert key + "_DivisibleBy5" == "A_LowValue_DivisibleBy5";
  }

  // ---------------------------------------------------------------------
  // Memoised Fibonacci
  // ---------------------------------------------------------------------

  /** `n` for `n <= 1`, otherwise the sum of the two previous values. */
  function Fib(n: int): int
    decreases if n < 0 then 0 else n
  {
    if n <= 1 then n else Fib(n - 1) + Fib(n - 2)
  }

  lemma {:induction false} FibNonNegativeAndGrowing(n: nat)
    ensures 0 <= Fib(n) <= Fib(n + 1)
    decreases n
  {
    if n >= 2 {
      FibNonNegativeAndGrowing(n - 1);
    }
  }

  /** The dictionary that the helper's default argument keeps between calls. */
  class MemoTable {
    var entries: map<int, int>

    constructor ()
      ensures entries == map[]
    {
      entries := map[];
    }
  }

  /** Only keys from 2 up are stored, each with its Fibonacci value. */
  predicate MemoValid(memo: MemoTable)
    reads memo
  {
    forall k :: k in memo.entries ==> k >= 2 && memo.entries[k] == Fib(k)
  }

  /** The processor object: the loaded rows it works on. */
  class ComplexDataProcessor {
    var dataSource: string
    var processedData: seq<Row>

    constructor (dataSourcePath: string)
      ensures dataSource == dataSourcePath && processedData == []
    {
      dataSource := dataSourcePath;
      processedData := [];
    }

    /** The state change at the end of `load_data`: the parsed rows become the data. */
    method SetProcessedData(rows: seq<Row>)
      modifies this
      ensures processedData == rows && dataSource == old(dataSource)
    {
      processedData := rows;
    }

    /** `filter_data_by_value`: returns the rows in range; the data itself is not changed. */
    method FilterDataByValue(minValue: real, maxValue: Option<real>) returns (filtered: seq<Row>)
      ensures filtered == Filtered(processedData, minValue, maxValue)
      ensures processedData == [] ==> filtered == []
    {
      if processedData == [] {
        return [];
      }
      filtered := [];
      for i := 0 to |processedData|
        invariant filtered == Filtered(processedData[..i], minValue, maxValue)
      {
        var item := processedData[i];
        assert processedData[..i + 1] == processedData[..i] + [item];
        FilteredAppend(processedData[..i], [item], minValue, maxValue);
        if InRange(item, minValue, maxValue) {
          filtered := filtered + [item];
        }
      }
      assert processedData[..|processedData|] == processedData;
    }

    /** `categorize_data`: counts every row under its base key and, for "A" keys, one divisibility key. */
    method CategorizeData(threshold: real) returns (categories: map<string, nat>)
      ensures categories == Categorized(processedData, threshold)
      ensures processedData == [] ==> categories == map[]
    {
      if processedData == [] {
        return map[];
      }
      var data := processedData;
      categories := map[];
      for i := 0 to |data|
        invariant categories == Categorized(data[..i], threshold)
      {
        var item := data[i];
        assert data[..i + 1][..i] == data[..i];
        ghost var before := categories;
        var categoryName := item.category;
        if item.value > threshold {
          categoryName := categoryName + "_HighValue";
        } else if item.value <= threshold / 2.0 {
          categoryName := categoryName + "_LowValue";
        } else {
          categoryName := categoryName + "_MediumValue";
        }
        assert categoryName == BaseKey(item, threshold);
        categories := Bump(categories, categoryName);
        if StartsWithA(categoryName) {
          if item.id % 5 == 0 {
            categories := Bump(categories, categoryName + "_DivisibleBy5");
          } else if item.id % 3 == 0 {
            categories := Bump(categories, categoryName + "_DivisibleBy3");
          }
        }
        assert categories == CountRow(before, item, threshold);
      }
      assert data[..|data|] == data;
    }

    /**
     * `_internal_recursive_helper`: Fibonacci through a memo that is shared
     * with every later call; a stored value is returned directly.
     */
    method InternalRecursiveHelper(n: int, memo: MemoTable) returns (r: int)
      requires MemoValid(memo)
      modifies memo
      ensures MemoValid(memo)
      ensures r == Fib(n)
      ensures forall k :: k in old(memo.entries) ==> k in memo.entries
      ensures n >= 2 ==> n in memo.entries
      decreases if n < 0 then 0 else n
    {
      if n in memo.entries {
        return memo.entries[n];
      }
      if n <= 1 {
        return n;
      }
      var a := InternalRecursiveHelper(n - 1, memo);
      var b := InternalRecursiveHelper(n - 2, memo);
      r := a + b;
      memo.entries := memo.entries[n := r];
    }
  }
}
