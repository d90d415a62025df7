/**
 * The small sample module (target_code/sample_code.py): a two-argument sum,
 * a class that stores a value and hands it back, and a counter of positive
 * items.  Values are integers here.
 */
module SampleCode {

  /** `calculate_sum`. */
  function CalculateSum(a: int, b: int): int
  {
    a + b
  }

  /** The sum does not depend on argument order, and adding 0 changes nothing. */
  lemma CalculateSumLaws(a: int, b: int)
    ensures CalculateSum(a, b) == CalculateSum(b, a)
    ensures CalculateSum(a, 0) == a
    ensures CalculateSum(5, 3) == 8
  {
  }

  /** How many items are strictly positive. */
  function CountPositive(s: seq<int>): nat
    decreases |s|
  {
    if s == [] then 0
    else CountPositive(s[..|s| - 1]) + (if s[|s| - 1] > 0 then 1 else 0)
  }

  function PositiveIndices(s: seq<int>): set<nat>
  {
    set i: nat | i < |s| && s[i] > 0
  }

  /** The count is the number of positions holding a positive item, so at most the length. */
  lemma {:induction false} CountPositiveIsPositivePositions(s: seq<int>)
    ensures CountPositive(s) == |PositiveIndices(s)|
    ensures CountPositive(s) <= |s|
    decreases |s|
  {
    if s != [] {
      var n := |s| - 1;
      var init := s[..n];
      CountPositiveIsPositivePositions(init);
      assert n !in PositiveIndices(init);
      if s[n] > 0 {
        assert PositiveIndices(s) == PositiveIndices(init) + {n};
      } else {
        assert PositiveIndices(s) == PositiveIndices(init);
      }
    }
  }

  /** Zeros and negatives are not counted. */
  lemma ProcessDataExample()
    ensures CountPositive([1, -2, 3, 0, 5]) == 3
  {
    assert [1, -2, 3, 0, 5][..4] == [1, -2, 3, 0];
    assert [1, -2, 3, 0][..3] == [1, -2, 3];
    assert [1, -2, 3][..2] == [1, -2];
    assert [1, -2][..1] == [1];
    assert [1][..0] == [];
  }

  /** `MyClass`: holds the value it was built with. */
  class MyClass<T> {
    var value: T

    constructor (value: T)
      ensures this.value == value
    {
      this.value := value;
    }

    /** `get_value`. */
    function GetValue(): T
      reads this
    {
      value
    }

    /** `process_data`: counts the items greater than zero. */
    method ProcessData(dataList: seq<int>) returns (count: nat)
      ensures count == CountPositive(dataList)
      ensures count <= |dataList|
      ensures dataList == [] ==> count == 0
    {
      count := 0;
      for i := 0 to |dataList|
        invariant count == CountPositive(dataList[..i])
      {
        assert dataList[..i + 1][..i] == dataList[..i];
        if dataList[i] > 0 {
          count := count + 1;
        }
      }
      assert dataList[..|dataList|] == dataList;
      CountPositiveIsPositivePositions(dataList);
    }
  }

  /** A fresh object hands back exactly the value it was built with. */
  method GetValueReturnsStoredValue<T>(v: T) returns (r: T)
    ensures r == v
  {
    var o := new MyClass(v);
    r := o.GetValue();
  }
}
