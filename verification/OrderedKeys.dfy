/** The least element of a set of numbers, and a set of numbers in increasing order. */
module OrderedKeys {

  predicate IsMin(least: int, numbers: set<int>) {
    least in numbers && forall n | n in numbers :: least <= n
  }

  lemma {:induction false} MinExists(numbers: set<int>)
    requires numbers != {}
    ensures exists least :: least in numbers && IsMin(least, numbers)
  {
    assert (forall n :: n !in numbers) ==> |numbers| == 0;
    var pick :| pick in numbers;
    var rest := numbers - {pick};
    assert numbers == {pick} + rest;
    if rest == {} {
      assert IsMin(pick, numbers);
    } else {
      MinExists(rest);
      var least :| least in rest && IsMin(least, rest);
      assert IsMin(if pick <= least then pick else least, numbers);
    }
  }

  function MinOf(numbers: set<int>): (least: int)
    requires numbers != {}
    ensures IsMin(least, numbers)
  {
    MinExists(numbers);
    var least :| least in numbers && IsMin(least, numbers);
    least
  }

  /** The numbers of a set in increasing order. */
  function Increasing(numbers: set<int>): (sorted: seq<int>)
    ensures forall n :: n in sorted <==> n in numbers
    ensures forall i, j :: 0 <= i < j < |sorted| ==> sorted[i] < sorted[j]
  {
    if numbers == {} then []
    else
      var least := MinOf(numbers);
      [least] + Increasing(numbers - {least})
  }
}
