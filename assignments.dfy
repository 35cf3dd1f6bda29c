/** `parseAssignments` (src/utils.js:8-32): a comma-separated list of `name`
    or `name:weight` items becomes a list in which each name is repeated
    `weight` times (once when no weight is given). */
module Assignments {
  import opened Errors
  import opened JsText
  import opened IntParse
  import opened Csv

  /** One parsed item: a name and the number of copies it asks for. */
  datatype Assignment = Assignment(name: string, weight: int)

  /** What one item contributes: `name` alone weighs 1; `name:text` weighs
      `parseIntInput(text)` (0 when `text` is empty); two or more colons are
      an error about the whole input. */
  function ParseItem(item: string, valueString: string): Result<Assignment>
  {
    var itemValues := Split(item, ':');
    var name := itemValues[0];
    if |itemValues| == 2 then
      match ParseIntInput(itemValues[1], 0)
      case Failure(_) => Failure(InvalidWeight(name, itemValues[1]))
      case Success(weight) => Success(Assignment(name, weight))
    else if |itemValues| > 2 then Failure(InvalidAssignment(valueString))
    else Success(Assignment(name, 1))
  }

  /** The copies the counted `for` loop pushes: none for a weight below 1. */
  function Repeat(name: string, count: int): (r: seq<string>)
    ensures |r| == if count > 0 then count else 0
    ensures forall i :: 0 <= i < |r| ==> r[i] == name
  {
    if count <= 0 then [] else Repeat(name, count - 1) + [name]
  }

  /** The list built from `items` in order, or the error of the first item
      that is rejected. */
  function WeightedList(items: seq<string>, valueString: string): Result<seq<string>>
  {
    if items == [] then Success([])
    else Extend(WeightedList(items[..|items| - 1], valueString), items[|items| - 1], valueString)
  }

  /** The list so far, extended by the copies of one more item; an earlier
      error, or this item's, ends it. */
  function Extend(sofar: Result<seq<string>>, item: string, valueString: string): Result<seq<string>>
  {
    match sofar
    case Failure(e) => Failure(e)
    case Success(list) =>
      match ParseItem(item, valueString)
      case Failure(e) => Failure(e)
      case Success(a) => Success(list + Repeat(a.name, a.weight))
  }

  /** `parseAssignments(valueString)` */
  method ParseAssignments(valueString: string) returns (r: Result<seq<string>>)
    ensures r == WeightedList(ParseCsvInput(valueString), valueString)
  {
    var list := ParseCsvInput(valueString);
    r := PushAll(list, valueString);
  }

  /** The `forEach` over the CSV items, pushing onto an initially empty list. */
  method PushAll(list: seq<string>, valueString: string) returns (r: Result<seq<string>>)
    ensures r == WeightedList(list, valueString)
  {
    var weightedList: seq<string> := [];
    var k := 0;
    while k < |list|
      invariant 0 <= k <= |list|
      invariant WeightedList(list[..k], valueString) == Success(weightedList)
    {
      WeightedListStep(list, k, valueString);
      var pushed := PushItem(weightedList, list[k], valueString);
      if pushed.Failure? {
        FailurePropagates(list, k + 1, valueString);
        return pushed;
      }
      weightedList := pushed.value;
      k := k + 1;
    }
    assert list[..k] == list;
    r := Success(weightedList);
  }

  /** The `forEach` callback: parse one item and push its copies onto
      `weightedList`, or throw. */
  method PushItem(weightedList: seq<string>, item: string, valueString: string) returns (r: Result<seq<string>>)
    ensures r == Extend(Success(weightedList), item, valueString)
  {
    var itemValues := Split(item, ':');
    var name := itemValues[0];
    var weight := 1;
    if |itemValues| == 2 {
      var parsed := ParseIntInput(itemValues[1], 0);
      if parsed.Failure? {
        return Failure(InvalidWeight(name, itemValues[1]));
      }
      weight := parsed.value;
    } else if |itemValues| > 2 {
      return Failure(InvalidAssignment(valueString));
    }
    var list := weightedList;
    var i := 0;
    while i < weight
      invariant 0 <= i && (i <= weight || i == 0)
      invariant list == weightedList + Repeat(name, i)
    {
      list := list + [name];
      i := i + 1;
    }
    assert Repeat(name, i) == Repeat(name, weight);
    return Success(list);
  }

  /** One more item extends the list by its block, or fails. */
  lemma {:induction false} WeightedListStep(items: seq<string>, k: nat, valueString: string)
    requires k < |items|
    ensures WeightedList(items[..k + 1], valueString) == Extend(WeightedList(items[..k], valueString), items[k], valueString)
  {
    assert items[..k + 1][..k] == items[..k];
  }

  /** Once a prefix of the items fails, the whole list fails the same way. */
  lemma {:induction false} FailurePropagates(items: seq<string>, k: nat, valueString: string)
    requires k <= |items| && WeightedList(items[..k], valueString).Failure?
    ensures WeightedList(items, valueString) == WeightedList(items[..k], valueString)
    decreases |items| - k
  {
    if k < |items| {
      var longer := items[..k + 1];
      assert longer[..|longer| - 1] == items[..k];
      FailurePropagates(items, k + 1, valueString);
    } else {
      assert items[..k] == items;
    }
  }

  /** The error of the first rejected item is the error of the whole input. */
  lemma {:induction false} FirstErrorWins(items: seq<string>, valueString: string, k: nat)
    requires k < |items| && ParseItem(items[k], valueString).Failure?
    requires forall j :: 0 <= j < k ==> ParseItem(items[j], valueString).Success?
    ensures WeightedList(items, valueString) == Failure(ParseItem(items[k], valueString).error)
  {
    var prefix := items[..k + 1];
    assert prefix[..|prefix| - 1] == items[..k];
    assert prefix[|prefix| - 1] == items[k];
    PrefixSucceeds(items[..k], valueString);
    FailurePropagates(items, k + 1, valueString);
  }

  lemma {:induction false} PrefixSucceeds(items: seq<string>, valueString: string)
    requires forall j :: 0 <= j < |items| ==> ParseItem(items[j], valueString).Success?
    ensures WeightedList(items, valueString).Success?
  {
    if items != [] {
      PrefixSucceeds(items[..|items| - 1], valueString);
    }
  }

  /** The copies of each assignment, one block after the other in order. */
  function Blocks(assignments: seq<Assignment>): seq<string>
  {
    if assignments == [] then []
    else Repeat(assignments[0].name, assignments[0].weight) + Blocks(assignments[1..])
  }

  /** The copies an assignment asks for: its weight, or none when below 1. */
  function Copies(a: Assignment): nat
  {
    if a.weight > 0 then a.weight else 0
  }

  function TotalWeight(assignments: seq<Assignment>): nat
  {
    if assignments == [] then 0 else Copies(assignments[0]) + TotalWeight(assignments[1..])
  }

  /** The total weight given to `name` across all its assignments. */
  function WeightOf(name: string, assignments: seq<Assignment>): nat
  {
    if assignments == [] then 0
    else (if assignments[0].name == name then Copies(assignments[0]) else 0) + WeightOf(name, assignments[1..])
  }

  lemma {:induction false} BlocksSnoc(assignments: seq<Assignment>, a: Assignment)
    ensures Blocks(assignments + [a]) == Blocks(assignments) + Repeat(a.name, a.weight)
  {
    if assignments == [] {
      assert [] + [a] == [a];
      assert Blocks([a]) == Repeat(a.name, a.weight) + Blocks([]);
    } else {
      assert (assignments + [a])[1..] == assignments[1..] + [a];
      BlocksSnoc(assignments[1..], a);
    }
  }

  /** When every item is accepted, the result is one block of copies per
      item, in item order. */
  lemma {:induction false} WeightedListIsBlocks(items: seq<string>, valueString: string, assignments: seq<Assignment>)
    requires |assignments| == |items|
    requires forall i :: 0 <= i < |items| ==> ParseItem(items[i], valueString) == Success(assignments[i])
    ensures WeightedList(items, valueString) == Success(Blocks(assignments))
    decreases |items|
  {
    if items != [] {
      var n := |items| - 1;
      WeightedListIsBlocks(items[..n], valueString, assignments[..n]);
      BlocksSnoc(assignments[..n], assignments[n]);
      assert assignments[..n] + [assignments[n]] == assignments;
    }
  }

  /** The list is as long as the sum of the weights (negative ones count 0). */
  lemma {:induction false} BlocksLength(assignments: seq<Assignment>)
    ensures |Blocks(assignments)| == TotalWeight(assignments)
  {
    if assignments != [] {
      BlocksLength(assignments[1..]);
    }
  }

  /** Each name occurs as often as the weights given to it add up to. */
  lemma {:induction false} BlocksCount(assignments: seq<Assignment>, name: string)
    ensures multiset(Blocks(assignments))[name] == WeightOf(name, assignments)
  {
    if assignments != [] {
      BlocksCount(assignments[1..], name);
      var a := assignments[0];
      RepeatCount(a.name, a.weight, name);
    }
  }

  lemma {:induction false} RepeatCount(name: string, count: int, other: string)
    ensures multiset(Repeat(name, count))[other] == if other == name && count > 0 then count else 0
    decreases if count > 0 then count else 0
  {
    if count > 0 {
      RepeatCount(name, count - 1, other);
    }
  }

  /** An item without a colon contributes its name once. */
  lemma {:induction false} ItemWithoutWeight(item: string, valueString: string)
    requires ':' !in item
    ensures ParseItem(item, valueString) == Success(Assignment(item, 1))
  {
    SplitFree(item, ':');
  }

  /** `name:` has an empty weight text, which counts as 0. */
  lemma {:induction false} ItemWithEmptyWeight(name: string, valueString: string)
    requires ':' !in name
    ensures ParseItem(name + ":", valueString) == Success(Assignment(name, 0))
  {
    assert name + ":" == name + [':'] + [];
    SplitAfter(name, ':', []);
  }

  /** `name:text` takes its weight from the text, and a text that is not an
      integer is reported with the name and the text. */
  lemma {:induction false} ItemWithWeight(name: string, text: string, valueString: string)
    requires ':' !in name && ':' !in text && text != []
    ensures ParseItem(name + ":" + text, valueString) ==
      match ParseIntInput(text, 0)
      case Failure(_) => Failure(InvalidWeight(name, text))
      case Success(w) => Success(Assignment(name, w))
  {
    assert name + ":" + text == name + [':'] + text;
    SplitAfter(name, ':', text);
    SplitFree(text, ':');
  }

  /** `name:<decimal integer>` weighs that integer. */
  lemma {:induction false} ItemWithNumber(name: string, n: int, valueString: string)
    requires ':' !in name
    ensures ParseItem(name + ":" + IntToString(n), valueString) == Success(Assignment(name, n))
  {
    var text := IntToString(n);
    NumberText(n);
    assert ':' !in text;
    ItemWithWeight(name, text, valueString);
    assert [] + text + [] == text;
    IntRoundTrip([], n, [], 0);
  }

  /** An item with two or more colons is rejected, quoting the whole input. */
  lemma {:induction false} ItemWithManyColons(item: string, valueString: string)
    requires multiset(item)[':'] >= 2
    ensures ParseItem(item, valueString) == Failure(InvalidAssignment(valueString))
  {
    SplitCount(item, ':');
  }
}
