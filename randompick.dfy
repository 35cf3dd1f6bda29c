/** `pickNRandomFromArray` (src/utils.js:45-58): draw up to `n` distinct
    values from a list, without replacement. `Math.random` is modelled by a
    nondeterministic choice of an index into the remaining pool, so the
    contract holds for every sequence of draws. */
module RandomPick {
  import opened Errors

  function Elements<T(==)>(s: seq<T>): set<T>
  {
    set x | x in s
  }

  predicate NoDuplicates<T(==)>(s: seq<T>)
  {
    forall i, j :: 0 <= i < j < |s| ==> s[i] != s[j]
  }

  /** The number of distinct values in `s`. */
  function DistinctCount<T(==)>(s: seq<T>): nat
  {
    |Elements(s)|
  }

  /** `s.filter((value) => value !== x)`: every copy of `x` goes, the rest
      stays. */
  function Without<T(==)>(s: seq<T>, x: T): (r: seq<T>)
    ensures Elements(r) == Elements(s) - {x}
    ensures |r| <= |s|
  {
    if s == [] then []
    else
      assert Elements(s) == {s[0]} + Elements(s[1..]);
      if s[0] == x then Without(s[1..], x)
      else
        var rest := Without(s[1..], x);
        assert Elements([s[0]] + rest) == {s[0]} + Elements(rest);
        [s[0]] + rest
  }

  /** `pickNRandomFromArray(arr, n)`; `arr` is only read (the source copies it
      before drawing). */
  method PickNRandom<T(==)>(arr: seq<T>, n: int) returns (r: Result<seq<T>>)
    ensures arr == [] <==> r == Failure(EmptyPickList)
    ensures r.Success? <==> arr != []
    ensures r.Success? ==> forall x :: x in r.value ==> x in arr
    ensures r.Success? ==> NoDuplicates(r.value)
    ensures r.Success? ==> |r.value| == if n <= 0 then 0 else if n < DistinctCount(arr) then n else DistinctCount(arr)
    ensures r.Success? && n >= DistinctCount(arr) ==> Elements(r.value) == Elements(arr)
  {
    if |arr| == 0 {
      return Failure(EmptyPickList);
    }
    var available := arr;
    var result := [];
    var i := 0;
    while i < n && |available| > 0
      invariant i == |result| && (i <= n || i == 0)
      invariant Drawn(arr, result, available)
      decreases n - i
    {
      var randomIndex :| 0 <= randomIndex < |available|;
      var pick := available[randomIndex];
      DrawStep(arr, result, available, pick);
      result := result + [pick];
      available := Without(available, pick);
      i := i + 1;
    }
    DrawsDone(arr, result, available, n);
    return Success(result);
  }

  /** The loop's state: the pool holds exactly the values not drawn yet, and
      the draws are distinct values of the input. */
  predicate Drawn<T(==)>(arr: seq<T>, result: seq<T>, available: seq<T>)
  {
    && Elements(available) == Elements(arr) - Elements(result)
    && Elements(result) <= Elements(arr)
    && NoDuplicates(result)
  }

  /** One draw from the pool keeps the loop's state. */
  lemma {:induction false} DrawStep<T>(arr: seq<T>, result: seq<T>, available: seq<T>, pick: T)
    requires Drawn(arr, result, available) && pick in available
    ensures Drawn(arr, result + [pick], Without(available, pick))
  {
    assert Elements(result + [pick]) == Elements(result) + {pick};
    assert pick in Elements(available);
    forall i | 0 <= i < |result|
      ensures result[i] != pick
    {
      assert result[i] in Elements(result);
    }
  }

  /** When the loop stops, it has drawn `n` values, or every distinct value
      when there are no more than `n` of them. */
  lemma {:induction false} DrawsDone<T>(arr: seq<T>, result: seq<T>, available: seq<T>, n: int)
    requires arr != [] && Drawn(arr, result, available)
    requires |result| == n || (|result| == 0 && n <= 0) || (available == [] && |result| <= n)
    ensures forall x :: x in result ==> x in arr
    ensures |result| == if n <= 0 then 0 else if n < DistinctCount(arr) then n else DistinctCount(arr)
    ensures n >= DistinctCount(arr) ==> Elements(result) == Elements(arr)
  {
    DistinctLength(result);
    SubsetCard(Elements(result), Elements(arr));
    assert |result| <= DistinctCount(arr);
    if available == [] {
      forall x | x in Elements(arr)
        ensures x in Elements(result)
      {
        assert x !in Elements(available);
      }
      assert Elements(result) == Elements(arr);
      assert |result| == DistinctCount(arr);
    } else {
      var left := available[0];
      assert left in Elements(available);
      assert left in Elements(arr) && left !in Elements(result);
      assert |Elements(result) + {left}| == |result| + 1;
      SubsetCard(Elements(result) + {left}, Elements(arr));
      assert |result| < DistinctCount(arr);
      assert |result| == n || (|result| == 0 && n <= 0);
    }
    forall x | x in result
      ensures x in arr
    {
      assert x in Elements(result);
    }
  }

  /** Without duplicates, a list has as many distinct values as elements. */
  lemma {:induction false} DistinctLength<T>(s: seq<T>)
    requires NoDuplicates(s)
    ensures DistinctCount(s) == |s|
  {
    if s != [] {
      var init := s[..|s| - 1];
      assert Elements(s) == Elements(init) + {s[|s| - 1]};
      assert s[|s| - 1] !in Elements(init);
      DistinctLength(init);
    }
  }

  lemma {:induction false} SubsetCard<T>(a: set<T>, b: set<T>)
    requires a <= b
    ensures |a| <= |b|
  {
    assert b == a + (b - a);
  }
}
