/**
 * Fractional sort keys of canonical rows, in exact arithmetic: where a new row goes between its
 * neighbours, one at a time by midpoint and in batches by even division.
 */
module SortKeys {
  import opened Options

  ghost predicate Increasing(keys: seq<real>) {
    forall i, j :: 0 <= i < j < |keys| ==> keys[i] < keys[j]
  }

  function MaxOf(keys: seq<real>): (largest: real)
    requires keys != []
    ensures largest in keys && forall k :: k in keys ==> k <= largest
  {
    if |keys| == 1 then keys[0]
    else
      var rest := MaxOf(keys[1..]);
      assert keys == [keys[0]] + keys[1..];
      if keys[0] >= rest then keys[0] else rest
  }

  /** The key for a row appended after all existing ones. */
  function DefaultSortKey(existing: seq<real>): real {
    if existing == [] then 1000.0 else MaxOf(existing) + 1000.0
  }

  /** The key for a row between two neighbours, either of which may be missing. */
  function MidpointSortKey(left: Option<real>, right: Option<real>): real {
    if left.None? && right.None? then 1000.0
    else if left.None? then right.value - 1000.0
    else if right.None? then left.value + 1000.0
    else (left.value + right.value) / 2.0
  }

  /** The neighbours of a new row that is to stand at position `p`. */
  function LeftOf(keys: seq<real>, p: nat): Option<real>
    requires p <= |keys|
  {
    if p == 0 then None else Some(keys[p - 1])
  }

  function RightOf(keys: seq<real>, p: nat): Option<real>
    requires p <= |keys|
  {
    if p == |keys| then None else Some(keys[p])
  }

  function Splice(keys: seq<real>, p: nat, more: seq<real>): seq<real>
    requires p <= |keys|
  {
    keys[..p] + more + keys[p..]
  }

  /** On sorted rows the default key is the midpoint key after the last row. */
  lemma DefaultIsMidpointAtEnd(keys: seq<real>)
    requires Increasing(keys)
    ensures DefaultSortKey(keys) == MidpointSortKey(LeftOf(keys, |keys|), None)
  {
    if keys != [] {
      var largest := MaxOf(keys);
      var i :| 0 <= i < |keys| && keys[i] == largest;
      assert keys[|keys| - 1] in keys;
    }
  }

  // ---------------------------------------------------------------------------------------
  // Runs of single inserts
  // ---------------------------------------------------------------------------------------

  /** Insert a row at position `p`: 0 prepends, the length appends, anything else goes in between. */
  function InsertAt(keys: seq<real>, p: nat): seq<real>
    requires p <= |keys|
  {
    Splice(keys, p, [MidpointSortKey(LeftOf(keys, p), RightOf(keys, p))])
  }

  predicate IsInBetween(keys: seq<real>, p: nat) {
    0 < p < |keys|
  }

  /** The least gap after `m` in-between inserts: 1000 halved `m` times. */
  function Halved(m: nat): real {
    if m == 0 then 1000.0 else Halved(m - 1) / 2.0
  }

  lemma {:induction false} HalvedIsPositive(m: nat)
    ensures 0.0 < Halved(m) <= 1000.0
  {
    if m > 0 {
      HalvedIsPositive(m - 1);
    }
  }

  /** Neighbouring keys are at least `gap` apart. */
  ghost predicate Spaced(keys: seq<real>, gap: real) {
    forall i :: 0 <= i < |keys| - 1 ==> keys[i] + gap <= keys[i + 1]
  }

  lemma {:induction false} SpacedIsIncreasing(keys: seq<real>, gap: real)
    requires Spaced(keys, gap) && gap > 0.0
    ensures Increasing(keys)
  {
    if keys != [] {
      var n := |keys| - 1;
      SpacedIsIncreasing(keys[..n], gap);
      assert forall i, j :: 0 <= i < j < n ==> keys[..n][i] < keys[..n][j];
      assert n > 0 ==> keys[n - 1] + gap <= keys[n];
    }
  }

  /** One insert keeps the keys spaced; only an in-between insert may halve the gap. */
  lemma {:induction false} InsertKeepsSpaced(keys: seq<real>, p: nat, gap: real)
    requires p <= |keys| && Spaced(keys, gap) && 0.0 < gap <= 1000.0
    ensures Spaced(InsertAt(keys, p), if IsInBetween(keys, p) then gap / 2.0 else gap)
  {
    var key := MidpointSortKey(LeftOf(keys, p), RightOf(keys, p));
    var after := InsertAt(keys, p);
    var bound := if IsInBetween(keys, p) then gap / 2.0 else gap;
    assert after[p] == key;
    forall i | 0 <= i < |after| - 1 ensures after[i] + bound <= after[i + 1] {
      if i + 1 < p {
        assert after[i] == keys[i] && after[i + 1] == keys[i + 1];
      } else if i + 1 == p {
        assert after[i] == keys[i];
        assert p < |keys| ==> keys[p - 1] + gap <= keys[p];
      } else if i == p {
        assert after[i + 1] == keys[p];
        assert p > 0 ==> keys[p - 1] + gap <= keys[p];
      } else {
        assert after[i] == keys[i - 1] && after[i + 1] == keys[i];
      }
    }
  }

  /** Where one insert puts its key: 1000 from a single neighbour, halfway between two, 1000 on its own. */
  lemma InsertedKeyStandsAt(keys: seq<real>, p: nat)
    requires p <= |keys|
    ensures var after := InsertAt(keys, p);
            && |after| == |keys| + 1 && after[..p] == keys[..p] && after[p + 1..] == keys[p..]
            && (keys == [] ==> after[p] == 1000.0)
            && (0 == p < |keys| ==> after[1] - after[0] == 1000.0)
            && (0 < p == |keys| ==> after[p] - after[p - 1] == 1000.0)
            && (0 < p < |keys| ==> after[p] - after[p - 1] == after[p + 1] - after[p])
  {
    var after := InsertAt(keys, p);
    assert after[..p] == keys[..p] && after[p + 1..] == keys[p..];
    assert p > 0 ==> after[p - 1] == keys[p - 1];
    assert p < |keys| ==> after[p + 1] == keys[p];
  }

  predicate ValidRun(n: nat, positions: seq<nat>)
    decreases |positions|
  {
    positions == [] || (positions[0] <= n && ValidRun(n + 1, positions[1..]))
  }

  function Run(keys: seq<real>, positions: seq<nat>): seq<real>
    requires ValidRun(|keys|, positions)
    decreases |positions|
  {
    if positions == [] then keys else Run(InsertAt(keys, positions[0]), positions[1..])
  }

  function InBetweenCount(n: nat, positions: seq<nat>): nat
    decreases |positions|
  {
    if positions == [] then 0 else (if 0 < positions[0] < n then 1 else 0) + InBetweenCount(n + 1, positions[1..])
  }

  lemma {:induction false} RunKeepsSpaced(keys: seq<real>, positions: seq<nat>, m: nat)
    requires ValidRun(|keys|, positions) && Spaced(keys, Halved(m))
    ensures Spaced(Run(keys, positions), Halved(m + InBetweenCount(|keys|, positions)))
    decreases |positions|
  {
    if positions != [] {
      HalvedIsPositive(m);
      InsertKeepsSpaced(keys, positions[0], Halved(m));
      RunKeepsSpaced(InsertAt(keys, positions[0]), positions[1..], if IsInBetween(keys, positions[0]) then m + 1 else m);
    }
  }

  /**
   * Over any run of appends, prepends and in-between inserts from an empty list, the keys are
   * strictly increasing in list order, and after m in-between inserts every adjacent gap is at
   * least 1000 / 2^m.
   */
  lemma RunsStayOrdered(positions: seq<nat>)
    requires ValidRun(0, positions)
    ensures Increasing(Run([], positions))
    ensures Spaced(Run([], positions), Halved(InBetweenCount(0, positions)))
  {
    RunKeepsSpaced([], positions, 0);
    HalvedIsPositive(InBetweenCount(0, positions));
    SpacedIsIncreasing(Run([], positions), Halved(InBetweenCount(0, positions)));
  }

  /** The bound is met: m inserts, each right before the same last row, leave a gap of 1000 / 2^m. */
  lemma {:induction false} GapIsAttained(m: nat) returns (positions: seq<nat>)
    ensures ValidRun(0, positions) && InBetweenCount(0, positions) == m && |positions| == m + 2
    ensures var keys := Run([], positions);
            |keys| == m + 2 && keys[m + 1] == 2000.0 && keys[m] == 2000.0 - Halved(m)
  {
    if m == 0 {
      positions := [0, 1];
      assert positions[1..] == [1] && [1][1..] == [];
      assert InsertAt([], 0) == [1000.0];
      assert InsertAt([1000.0], 1) == [1000.0, 2000.0];
    } else {
      var before := GapIsAttained(m - 1);
      positions := before + [m];
      RunAppend([], before, m);
      var keys := Run([], before);
      var after := InsertAt(keys, m);
      assert after[m] == (keys[m - 1] + keys[m]) / 2.0 && after[m + 1] == keys[m];
    }
  }

  lemma {:induction false} RunAppend(keys: seq<real>, positions: seq<nat>, p: nat)
    requires ValidRun(|keys|, positions) && p <= |Run(keys, positions)|
    ensures |Run(keys, positions)| == |keys| + |positions|
    ensures ValidRun(|keys|, positions + [p])
    ensures Run(keys, positions + [p]) == InsertAt(Run(keys, positions), p)
    ensures InBetweenCount(|keys|, positions + [p])
            == InBetweenCount(|keys|, positions) + (if 0 < p < |Run(keys, positions)| then 1 else 0)
    decreases |positions|
  {
    if positions == [] {
      assert [] + [p] == [p] && [p][1..] == [];
    } else {
      assert (positions + [p])[1..] == positions[1..] + [p];
      RunAppend(InsertAt(keys, positions[0]), positions[1..], p);
    }
  }

  // ---------------------------------------------------------------------------------------
  // Batches
  // ---------------------------------------------------------------------------------------

  const MIN_STEP := 0.001

  function StepBetween(left: real, right: real, count: nat): real {
    var step := (right - left) / (count + 1) as real;
    if step <= MIN_STEP then MIN_STEP else step
  }

  /** Keys for a batch of new rows between two neighbours, either of which may be missing. */
  function AllocateSortKeys(left: Option<real>, right: Option<real>, count: nat): (keys: seq<real>)
    ensures |keys| == count
  {
    if left.None? && right.None? then seq(count, i requires 0 <= i < count => (i + 1) as real * 1000.0)
    else if left.None? then
      var start := right.value - 1000.0 * count as real;
      seq(count, i requires 0 <= i < count => start + 1000.0 * i as real)
    else if right.None? then seq(count, i requires 0 <= i < count => left.value + 1000.0 * (i + 1) as real)
    else
      var step := StepBetween(left.value, right.value, count);
      seq(count, i requires 0 <= i < count => left.value + step * (i + 1) as real)
  }

  lemma Scaled(step: real, a: real, b: real)
    requires step > 0.0
    ensures a < b <==> step * a < step * b
  {
    if a < b {
      assert step * (b - a) > 0.0;
    } else if b < a {
      assert step * (a - b) > 0.0;
    }
  }

  /** Keys at equal steps are increasing, and beyond any key that they start behind. */
  lemma EqualStepsIncrease(keys: seq<real>, start: real, step: real, first: nat)
    requires step > 0.0 && forall i :: 0 <= i < |keys| ==> keys[i] == start + step * (first + i) as real
    ensures Increasing(keys)
    ensures first > 0 ==> forall k :: k in keys ==> start < k
  {
    forall i, j | 0 <= i < j < |keys| ensures keys[i] < keys[j] {
      Scaled(step, (first + i) as real, (first + j) as real);
    }
    if first > 0 {
      forall i | 0 <= i < |keys| ensures start < keys[i] {
        Scaled(step, 0.0, (first + i) as real);
      }
    }
  }

  lemma {:induction false} AllocatedAreIncreasing(left: Option<real>, right: Option<real>, count: nat)
    ensures Increasing(AllocateSortKeys(left, right, count))
    ensures left.Some? ==> forall k :: k in AllocateSortKeys(left, right, count) ==> left.value < k
  {
    var keys := AllocateSortKeys(left, right, count);
    if left.None? && right.None? {
      EqualStepsIncrease(keys, 0.0, 1000.0, 1);
    } else if left.None? {
      EqualStepsIncrease(keys, right.value - 1000.0 * count as real, 1000.0, 0);
    } else if right.None? {
      EqualStepsIncrease(keys, left.value, 1000.0, 1);
    } else {
      EqualStepsIncrease(keys, left.value, StepBetween(left.value, right.value, count), 1);
    }
  }

  /**
   * When a batch fits. Between two existing rows every allocated key lies strictly between them
   * exactly when the gap is wider than `count` minimal steps: below that the minimal step carries
   * the batch to or past the right neighbour. With a side open the batch always fits.
   */
  lemma BatchFitsIff(left: Option<real>, right: Option<real>, count: nat)
    requires count > 0
    ensures (right.Some? ==> forall k :: k in AllocateSortKeys(left, right, count) ==> k < right.value)
            <==> (left.Some? && right.Some? ==> MIN_STEP * count as real < right.value - left.value)
  {
    var keys := AllocateSortKeys(left, right, count);
    AllocatedAreIncreasing(left, right, count);
    if right.Some? {
      LastKeyDecides(keys, right.value);
      if left.Some? {
        BetweenFitsIff(left.value, right.value, count);
      }
    }
  }

  lemma BetweenFitsIff(left: real, right: real, count: nat)
    requires count > 0
    ensures AllocateSortKeys(Some(left), Some(right), count)[count - 1] < right <==> MIN_STEP * count as real < right - left
  {
    assert StepBetween(0.0, right - left, count) == StepBetween(left, right, count);
  }

  lemma LastKeyDecides(keys: seq<real>, right: real)
    requires keys != [] && Increasing(keys)
    ensures (forall k :: k in keys ==> k < right) <==> keys[|keys| - 1] < right
  {
    assert keys[|keys| - 1] in keys;
    if keys[|keys| - 1] < right {
      forall k | k in keys ensures k < right {
        var i :| 0 <= i < |keys| && keys[i] == k;
        assert keys[i] <= keys[|keys| - 1];
      }
    }
  }

  /** Splicing a batch that fits keeps the list in order. */
  lemma BatchKeepsOrder(keys: seq<real>, p: nat, count: nat)
    requires p <= |keys| && Increasing(keys) && count > 0
    ensures Increasing(Splice(keys, p, AllocateSortKeys(LeftOf(keys, p), RightOf(keys, p), count)))
            <==> (0 < p < |keys| ==> MIN_STEP * count as real < keys[p] - keys[p - 1])
  {
    var left, right := LeftOf(keys, p), RightOf(keys, p);
    var batch := AllocateSortKeys(left, right, count);
    AllocatedAreIncreasing(left, right, count);
    BatchFitsIff(left, right, count);
    SplicedIsIncreasingIff(keys, p, batch);
  }

  /** A batch above its left neighbour fits in exactly when it is below its right neighbour. */
  lemma SplicedIsIncreasingIff(keys: seq<real>, p: nat, batch: seq<real>)
    requires p <= |keys| && Increasing(keys) && Increasing(batch) && batch != []
    requires p > 0 ==> forall k :: k in batch ==> keys[p - 1] < k
    ensures Increasing(Splice(keys, p, batch)) <==> (p < |keys| ==> forall k :: k in batch ==> k < keys[p])
  {
    var after := Splice(keys, p, batch);
    if p < |keys| && !(forall k :: k in batch ==> k < keys[p]) {
      var i :| 0 <= i < |batch| && batch[i] >= keys[p];
      assert after[p + i] == batch[i] && after[p + |batch|] == keys[p];
    } else {
      forall i, j | 0 <= i < j < |after| ensures after[i] < after[j] {
        OrderedAcross(keys, p, batch, i, j);
      }
    }
  }

  // ---- How a batch is spread ------------------------------------------------------------

  /** All neighbouring keys are exactly `gap` apart. */
  ghost predicate EvenlySpaced(keys: seq<real>, gap: real) {
    forall i :: 0 <= i < |keys| - 1 ==> keys[i + 1] - keys[i] == gap
  }

  /** The gap is wide enough for `count + 1` minimal steps. */
  predicate IsWide(left: real, right: real, count: nat) {
    right - left > MIN_STEP * (count + 1) as real
  }

  lemma StepIs(left: real, right: real, count: nat)
    ensures var step := StepBetween(left, right, count);
            if IsWide(left, right, count) then step * (count + 1) as real == right - left else step == MIN_STEP
  {
    var n := (count + 1) as real;
    var step := (right - left) / n;
    assert step * n == right - left;
    if IsWide(left, right, count) {
      assert (step - MIN_STEP) * n > 0.0;
      assert step > MIN_STEP;
    } else {
      assert (MIN_STEP - step) * n >= 0.0;
      assert step <= MIN_STEP;
    }
  }

  lemma StepsAreEven(keys: seq<real>, start: real, step: real, first: nat)
    requires forall i :: 0 <= i < |keys| ==> keys[i] == start + step * (first + i) as real
    ensures EvenlySpaced(keys, step)
  {
    forall i | 0 <= i < |keys| - 1 ensures keys[i + 1] - keys[i] == step {
      OneStepOn(step, (first + i) as real);
    }
  }

  lemma OneStepOn(step: real, n: real)
    ensures step * (n + 1.0) - step * n == step
  {}

  /**
   * How a batch is spread. Between two neighbours that are far enough apart it divides the gap evenly:
   * all `count + 1` gaps of left, batch and right are the same. Between closer neighbours each key is
   * one minimal step above the one before. With a side open, all gaps are 1000.
   */
  lemma BatchIsEven(left: Option<real>, right: Option<real>, count: nat)
    ensures var keys := AllocateSortKeys(left, right, count);
            match (left, right)
            case (Some(l), Some(r)) =>
              if IsWide(l, r, count) then EvenlySpaced([l] + keys + [r], (r - l) / (count + 1) as real)
              else EvenlySpaced([l] + keys, MIN_STEP)
            case (Some(l), None) => EvenlySpaced([l] + keys, 1000.0)
            case (None, Some(r)) => EvenlySpaced(keys + [r], 1000.0)
            case (None, None) => EvenlySpaced(keys, 1000.0) && (count > 0 ==> keys[0] == 1000.0)
  {
    var keys := AllocateSortKeys(left, right, count);
    match (left, right)
    case (Some(l), Some(r)) =>
      var step := StepBetween(l, r, count);
      StepIs(l, r, count);
      if IsWide(l, r, count) {
        assert step == (r - l) / (count + 1) as real;
        StepsAreEven([l] + keys + [r], l, step, 0);
      } else {
        StepsAreEven([l] + keys, l, MIN_STEP, 0);
      }
    case (Some(l), None) => StepsAreEven([l] + keys, l, 1000.0, 0);
    case (None, Some(r)) => StepsAreEven(keys + [r], r - 1000.0 * count as real, 1000.0, 0);
    case (None, None) => StepsAreEven(keys, 0.0, 1000.0, 1);
  }

  /**
   * The two ways to place one row agree: a batch of one is the midpoint key if and only if a side is
   * open or the neighbours are at least two minimal steps apart.
   */
  lemma BatchOfOneIsMidpointIff(left: Option<real>, right: Option<real>)
    ensures AllocateSortKeys(left, right, 1) == [MidpointSortKey(left, right)]
            <==> (left.Some? && right.Some? ==> right.value - left.value >= 2.0 * MIN_STEP)
  {
    var keys := AllocateSortKeys(left, right, 1);
    assert keys == [keys[0]];
    if left.Some? && right.Some? {
      StepIs(left.value, right.value, 1);
    }
  }

  function Lesser(a: real, b: real): real {
    if a <= b then a else b
  }

  /** A batch in a wide gap leaves the lesser of the old least gap and the even share of that gap. */
  lemma BatchLeastGap(keys: seq<real>, p: nat, count: nat, gap: real)
    requires 0 < p < |keys| && count > 0 && Spaced(keys, gap) && HasGap(keys, gap)
    requires IsWide(keys[p - 1], keys[p], count)
    ensures var after := Splice(keys, p, AllocateSortKeys(LeftOf(keys, p), RightOf(keys, p), count));
            var least := Lesser(gap, (keys[p] - keys[p - 1]) / (count + 1) as real);
            Spaced(after, least) && HasGap(after, least)
  {
    var l, r := keys[p - 1], keys[p];
    var batch := AllocateSortKeys(Some(l), Some(r), count);
    var share := WideShare(l, r, count);
    SplicedIsSpaced(keys, p, batch, share, gap);
    SplicedHasGap(keys, p, batch, share, gap);
  }

  lemma WideShare(l: real, r: real, count: nat) returns (share: real)
    requires count > 0 && IsWide(l, r, count)
    ensures share == (r - l) / (count + 1) as real
    ensures share < r - l && EvenlySpaced([l] + AllocateSortKeys(Some(l), Some(r), count) + [r], share)
  {
    share := (r - l) / (count + 1) as real;
    BatchIsEven(Some(l), Some(r), count);
    ShareIsLess(r - l, count);
  }

  /** Some two neighbours are exactly `gap` apart. */
  ghost predicate HasGap(keys: seq<real>, gap: real) {
    exists i :: 0 <= i < |keys| - 1 && keys[i + 1] - keys[i] == gap
  }

  lemma SplicedIsSpaced(keys: seq<real>, p: nat, batch: seq<real>, share: real, gap: real)
    requires 0 < p < |keys| && Spaced(keys, gap)
    requires EvenlySpaced([keys[p - 1]] + batch + [keys[p]], share)
    ensures Spaced(Splice(keys, p, batch), Lesser(gap, share))
  {
    var after := Splice(keys, p, batch);
    forall j | 0 <= j < |after| - 1 ensures after[j] + Lesser(gap, share) <= after[j + 1] {
      SplicedGap(keys, p, batch, share, j);
    }
  }

  lemma SplicedHasGap(keys: seq<real>, p: nat, batch: seq<real>, share: real, gap: real)
    requires 0 < p < |keys| && HasGap(keys, gap) && share < keys[p] - keys[p - 1]
    requires EvenlySpaced([keys[p - 1]] + batch + [keys[p]], share)
    ensures HasGap(Splice(keys, p, batch), Lesser(gap, share))
  {
    var j := p - 1;
    if gap < share {
      var i :| 0 <= i < |keys| - 1 && keys[i + 1] - keys[i] == gap;
      j := if i < p - 1 then i else i + |batch|;
    }
    SplicedGap(keys, p, batch, share, j);
  }

  /** The gaps of a spliced list are the old ones but one, and those of the batch with its neighbours. */
  lemma SplicedGap(keys: seq<real>, p: nat, batch: seq<real>, share: real, j: nat)
    requires 0 < p < |keys| && EvenlySpaced([keys[p - 1]] + batch + [keys[p]], share) && j + 1 < |keys| + |batch|
    ensures var after := Splice(keys, p, batch);
            after[j + 1] - after[j] == if j < p - 1 then keys[j + 1] - keys[j]
                                       else if j < p + |batch| then share
                                       else keys[j - |batch| + 1] - keys[j - |batch|]
  {
    if p - 1 <= j < p + |batch| {
      var chain, i := [keys[p - 1]] + batch + [keys[p]], j - (p - 1);
      assert chain[i + 1] - chain[i] == share;
    }
  }

  lemma ShareIsLess(gap: real, count: nat)
    requires gap > 0.0 && count > 0
    ensures 0.0 < gap / (count + 1) as real < gap
  {
    var n := (count + 1) as real;
    var share := gap / n;
    assert share * n == gap;
    assert share > 0.0;
    assert share * (n - 1.0) > 0.0;
  }

  /** After twenty in-between inserts the last gap is too narrow for a batch of even one row. */
  lemma BatchOvertakes() returns (positions: seq<nat>)
    ensures ValidRun(0, positions) && InBetweenCount(0, positions) == 20
    ensures var keys := Run([], positions);
            && |keys| == 22 && Increasing(keys)
            && !Increasing(Splice(keys, 21, AllocateSortKeys(LeftOf(keys, 21), RightOf(keys, 21), 1)))
  {
    positions := GapIsAttained(20);
    RunsStayOrdered(positions);
    TwentyHalves();
    BatchKeepsOrder(Run([], positions), 21, 1);
  }

  lemma TwentyHalves()
    ensures Halved(20) < MIN_STEP
  {
    assert Halved(5) == 31.25;
    assert Halved(10) == 31.25 / 32.0;
    assert Halved(15) == 31.25 / 1024.0;
    assert Halved(20) == 31.25 / 32768.0;
  }

  lemma OrderedAcross(keys: seq<real>, p: nat, batch: seq<real>, i: nat, j: nat)
    requires p <= |keys| && Increasing(keys) && Increasing(batch) && batch != []
    requires p > 0 ==> forall k :: k in batch ==> keys[p - 1] < k
    requires p < |keys| ==> forall k :: k in batch ==> k < keys[p]
    requires i < j < |keys| + |batch|
    ensures Splice(keys, p, batch)[i] < Splice(keys, p, batch)[j]
  {
    var n := |batch|;
    if i < p {
      assert keys[i] <= keys[p - 1];
      if p <= j < p + n {
        assert batch[j - p] in batch;
      }
    } else if i < p + n {
      assert batch[i - p] in batch;
      assert j >= p + n ==> keys[p] <= keys[j - n];
    }
  }
}
