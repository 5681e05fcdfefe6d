/**
 * The lexical alignment of the event-ordering judge: score every (system item, reference item)
 * pair, sort by score, and take pairs greedily while both ends are free. The result is a stable,
 * maximal one-to-one alignment whose total score is at least half the best possible.
 */
module Alignment {
  import opened Collections

  /** A scored pair; tuples compare by score, then system index, then reference index. */
  datatype Pair = Pair(score: real, sysIdx: nat, refIdx: nat)

  /** Text handling that the score builds on: cleaning, tokens, and a sequence similarity ratio. */
  datatype TextModel = TextModel(clean: string -> string, tokens: string -> seq<string>, ratio: (string, string) -> real)

  /** The ratio of a sequence matcher lies between 0 and 1. */
  ghost predicate RatioIsBounded(text: TextModel) {
    forall a: string, b: string :: 0.0 <= text.ratio(a, b) <= 1.0
  }

  function TokenSet(text: TextModel, item: string): set<string> {
    set token | token in text.tokens(item)
  }

  function Quotient(part: nat, whole: nat): (q: real)
    ensures part <= whole ==> 0.0 <= q <= 1.0
    ensures part == whole > 0 ==> q == 1.0
  {
    if whole == 0 then 0.0 else part as real / whole as real
  }

  function FastAlignmentScore(text: TextModel, first: string, second: string): real {
    if text.clean(first) == "" || text.clean(second) == "" then 0.0
    else
      var a, b := TokenSet(text, first), TokenSet(text, second);
      var overlap := |a * b|;
      var jaccard := Quotient(overlap, |a + b|);
      var containment := Quotient(overlap, if |a| <= |b| then |a| else |b|);
      0.5 * containment + 0.3 * jaccard + 0.2 * text.ratio(text.clean(first), text.clean(second))
  }

  /** Scores lie between 0 and 1, so a total of scores never loses by adding a pair. */
  lemma ScoreIsBounded(text: TextModel, first: string, second: string)
    requires RatioIsBounded(text)
    ensures 0.0 <= FastAlignmentScore(text, first, second) <= 1.0
  {
    var a, b := TokenSet(text, first), TokenSet(text, second);
    SubsetSize(a * b, a);
    SubsetSize(a * b, b);
    SubsetSize(a, a + b);
    assert 0.0 <= text.ratio(text.clean(first), text.clean(second)) <= 1.0;
  }

  lemma OverlapSizes<T>(a: set<T>, b: set<T>)
    ensures |a * b| <= |a| && |a * b| <= |b| && |a + b| + |a * b| == |a| + |b|
  {
    SubsetSize(a * b, a);
    SubsetSize(a * b, b);
  }

  /**
   * The score in numbers: for two non-empty token sets of sizes m <= n with k tokens in common it is
   * k of m for containment, k of the m + n - k tokens in all for overlap, and the ratio of the clean
   * texts, weighted 0.5, 0.3 and 0.2. It does not matter which text has the smaller set.
   */
  lemma ScoreInNumbers(text: TextModel, first: string, second: string, m: nat, n: nat, k: nat)
    requires text.clean(first) != "" && text.clean(second) != ""
    requires k == |TokenSet(text, first) * TokenSet(text, second)| && 0 < m <= n
    requires {|TokenSet(text, first)|, |TokenSet(text, second)|} == {m, n}
    ensures k <= m && FastAlignmentScore(text, first, second) ==
            0.5 * (k as real / m as real) + 0.3 * (k as real / (m + n - k) as real) + 0.2 * text.ratio(text.clean(first), text.clean(second))
  {
    var a, b := TokenSet(text, first), TokenSet(text, second);
    OverlapSizes(a, b);
    assert |a| in {m, n} && |b| in {m, n} && m in {|a|, |b|} && n in {|a|, |b|};
    assert |a| + |b| == m + n;
  }

  /** Without tokens on one side only the ratio counts; a text that cleans to nothing scores nothing. */
  lemma ScoreWithoutTokens(text: TextModel, first: string, second: string)
    requires TokenSet(text, first) == {} || TokenSet(text, second) == {}
    ensures FastAlignmentScore(text, first, second) ==
            if text.clean(first) == "" || text.clean(second) == "" then 0.0 else 0.2 * text.ratio(text.clean(first), text.clean(second))
  {
    assert TokenSet(text, first) * TokenSet(text, second) == {};
  }

  /** A text all of whose tokens, of which it has some, are among those of the other. */
  ghost predicate IsContained(text: TextModel, part: string, whole: string) {
    text.clean(part) != "" && text.clean(whole) != "" && {} < TokenSet(text, part) <= TokenSet(text, whole)
  }

  /**
   * A contained text scores 0.5, and 0.3 of its share of tokens, and 0.2 of the ratio, in either
   * argument order; so it scores at least 0.5.
   */
  lemma ContainedScore(text: TextModel, part: string, whole: string)
    requires IsContained(text, part, whole)
    ensures var share := |TokenSet(text, part)| as real / |TokenSet(text, whole)| as real;
            && FastAlignmentScore(text, part, whole) == 0.5 + 0.3 * share + 0.2 * text.ratio(text.clean(part), text.clean(whole))
            && FastAlignmentScore(text, whole, part) == 0.5 + 0.3 * share + 0.2 * text.ratio(text.clean(whole), text.clean(part))
    ensures RatioIsBounded(text) ==> FastAlignmentScore(text, part, whole) >= 0.5 && FastAlignmentScore(text, whole, part) >= 0.5
  {
    var a, b := TokenSet(text, part), TokenSet(text, whole);
    assert a * b == a && b * a == a && a + b == b && b + a == b;
    SubsetSize(a, b);
    assert |a| > 0;
    assert |a| as real / |a| as real == 1.0;
    assert |a| as real / |b| as real >= 0.0;
  }

  /** Texts with equally many tokens, k of n in common. */
  lemma EqualSizeScore(text: TextModel, first: string, second: string, n: nat, k: nat)
    requires text.clean(first) != "" && text.clean(second) != "" && n > 0
    requires |TokenSet(text, first)| == n == |TokenSet(text, second)| && k == |TokenSet(text, first) * TokenSet(text, second)|
    ensures k <= n && FastAlignmentScore(text, first, second) ==
            0.5 * (k as real / n as real) + 0.3 * (k as real / (2 * n - k) as real) + 0.2 * text.ratio(text.clean(first), text.clean(second))
  {
    ScoreInNumbers(text, first, second, n, n, k);
  }

  // ---------------------------------------------------------------------------------------
  // Eligible pairs, sorted
  // ---------------------------------------------------------------------------------------

  /** What the double loop collects: every pair of indices whose score reaches the threshold. */
  ghost predicate IsEligible(text: TextModel, reference: seq<string>, system: seq<string>, threshold: real, p: Pair) {
    && p.sysIdx < |system| && p.refIdx < |reference|
    && p.score == FastAlignmentScore(text, reference[p.refIdx], system[p.sysIdx])
    && p.score >= threshold
  }

  /** Strict descending tuple order. */
  predicate Before(p: Pair, q: Pair) {
    || p.score > q.score
    || (p.score == q.score && (p.sysIdx > q.sysIdx || (p.sysIdx == q.sysIdx && p.refIdx > q.refIdx)))
  }

  ghost predicate Descending(pairs: seq<Pair>) {
    forall i, j :: 0 <= i < j < |pairs| ==> Before(pairs[i], pairs[j])
  }

  function Insert(p: Pair, sorted: seq<Pair>): seq<Pair> {
    if sorted == [] then [p]
    else if Before(p, sorted[0]) then [p] + sorted
    else [sorted[0]] + Insert(p, sorted[1..])
  }

  function SortedDescending(pairs: seq<Pair>): seq<Pair> {
    if pairs == [] then [] else Insert(pairs[0], SortedDescending(pairs[1..]))
  }

  lemma {:induction false} InsertKeepsOrder(p: Pair, sorted: seq<Pair>)
    requires Descending(sorted) && p !in sorted
    ensures Descending(Insert(p, sorted))
    ensures forall q :: q in Insert(p, sorted) <==> q == p || q in sorted
  {
    if sorted != [] && !Before(p, sorted[0]) {
      var rest := sorted[1..];
      InsertKeepsOrder(p, rest);
      assert sorted == [sorted[0]] + rest;
      forall q | q in Insert(p, rest) ensures Before(sorted[0], q) {
        if q in rest {
          var j :| 0 <= j < |rest| && rest[j] == q;
          assert sorted[j + 1] == q;
        }
      }
    }
  }

  ghost predicate Distinct(pairs: seq<Pair>) {
    forall i, j :: 0 <= i < j < |pairs| ==> pairs[i] != pairs[j]
  }

  lemma {:induction false} SortSorts(pairs: seq<Pair>)
    requires Distinct(pairs)
    ensures Descending(SortedDescending(pairs))
    ensures forall p :: p in SortedDescending(pairs) <==> p in pairs
  {
    if pairs != [] {
      assert pairs == [pairs[0]] + pairs[1..];
      assert pairs[0] !in pairs[1..];
      SortSorts(pairs[1..]);
      InsertKeepsOrder(pairs[0], SortedDescending(pairs[1..]));
    }
  }

  // ---------------------------------------------------------------------------------------
  // The greedy choice
  // ---------------------------------------------------------------------------------------

  function Greedy(pairs: seq<Pair>, usedSystem: set<nat>, usedReference: set<nat>): seq<Pair> {
    if pairs == [] then []
    else
      var p := pairs[0];
      if p.sysIdx in usedSystem || p.refIdx in usedReference
      then Greedy(pairs[1..], usedSystem, usedReference)
      else [p] + Greedy(pairs[1..], usedSystem + {p.sysIdx}, usedReference + {p.refIdx})
  }

  /** One-to-one: no system index and no reference index is used twice. */
  ghost predicate OneToOne(chosen: set<Pair>) {
    forall p, q :: p in chosen && q in chosen && (p.sysIdx == q.sysIdx || p.refIdx == q.refIdx) ==> p == q
  }

  ghost predicate Conflict(p: Pair, q: Pair) {
    p.sysIdx == q.sysIdx || p.refIdx == q.refIdx
  }

  function Chosen(pairs: seq<Pair>): set<Pair> {
    set p | p in pairs
  }

  lemma {:induction false} GreedyAvoidsUsed(pairs: seq<Pair>, usedSystem: set<nat>, usedReference: set<nat>)
    ensures var out := Greedy(pairs, usedSystem, usedReference);
            && (forall p :: p in out ==> p in pairs && p.sysIdx !in usedSystem && p.refIdx !in usedReference)
            && OneToOne(Chosen(out))
            && (forall i, j :: 0 <= i < j < |out| ==> !Conflict(out[i], out[j]))
  {
    if pairs != [] {
      var p, rest := pairs[0], pairs[1..];
      assert pairs == [p] + rest;
      GreedyAvoidsUsed(rest, usedSystem, usedReference);
      GreedyAvoidsUsed(rest, usedSystem + {p.sysIdx}, usedReference + {p.refIdx});
    }
  }

  /** Why a pair is left out: an end was taken from the start, or by a chosen pair no worse. */
  lemma {:induction false} GreedyIsStable(pairs: seq<Pair>, usedSystem: set<nat>, usedReference: set<nat>, q: Pair)
    requires Descending(pairs) && q in pairs && q !in Greedy(pairs, usedSystem, usedReference)
    ensures q.sysIdx in usedSystem || q.refIdx in usedReference
            || exists p :: p in Greedy(pairs, usedSystem, usedReference) && Conflict(p, q) && Before(p, q)
  {
    var p, rest := pairs[0], pairs[1..];
    assert pairs == [p] + rest;
    if p.sysIdx in usedSystem || p.refIdx in usedReference {
      if q != p {
        GreedyIsStable(rest, usedSystem, usedReference, q);
      }
    } else {
      assert p in Greedy(pairs, usedSystem, usedReference);
      var j :| 0 <= j < |pairs| && pairs[j] == q;
      assert Before(p, q);
      GreedyIsStable(rest, usedSystem + {p.sysIdx}, usedReference + {p.refIdx}, q);
    }
  }

  // ---------------------------------------------------------------------------------------
  // Half of the best total
  // ---------------------------------------------------------------------------------------

  /** The total score of a finite set of pairs. */
  ghost function Total(pairs: set<Pair>): real {
    if pairs == {} then 0.0
    else
      var p :| p in pairs;
      p.score + Total(pairs - {p})
  }

  lemma {:induction false} TotalRemove(pairs: set<Pair>, p: Pair)
    requires p in pairs
    ensures Total(pairs) == p.score + Total(pairs - {p})
  {
    var q :| q in pairs && Total(pairs) == q.score + Total(pairs - {q});
    if q != p {
      TotalRemove(pairs - {q}, p);
      TotalRemove(pairs - {p}, q);
      assert pairs - {q} - {p} == pairs - {p} - {q};
    }
  }

  /** The pairs of `rival` that clash with `p` weigh at most two of `p`. */
  lemma ClashWeighsAtMostTwo(rival: set<Pair>, p: Pair)
    requires OneToOne(rival) && p.score >= 0.0
    requires forall q :: q in rival && Conflict(p, q) ==> q.score <= p.score
    ensures var kept := set q | q in rival && !Conflict(p, q);
            Total(rival) <= 2.0 * p.score + Total(kept)
  {
    var kept := set q | q in rival && !Conflict(p, q);
    var bySystem := set q | q in rival && q.sysIdx == p.sysIdx;
    var remaining := rival - bySystem;
    AtMostOneRemoved(rival, bySystem, p.score);
    var byReference := set q | q in remaining && q.refIdx == p.refIdx;
    AtMostOneRemoved(remaining, byReference, p.score);
    assert remaining - byReference == kept;
  }

  lemma AtMostOneRemoved(all: set<Pair>, removed: set<Pair>, bound: real)
    requires removed <= all && bound >= 0.0
    requires forall p, q :: p in removed && q in removed ==> p == q
    requires forall q :: q in removed ==> q.score <= bound
    ensures Total(all) <= bound + Total(all - removed)
  {
    if removed == {} {
      assert all - removed == all;
    } else {
      var q :| q in removed;
      assert removed == {q};
      TotalRemove(all, q);
    }
  }

  /** The heart of the bound: each greedy choice pays for the at most two rivals it displaces. */
  lemma {:induction false} GreedyPaysForRival(pairs: seq<Pair>, usedSystem: set<nat>, usedReference: set<nat>, rival: set<Pair>)
    requires Descending(pairs) && OneToOne(rival)
    requires forall p :: p in pairs ==> p.score >= 0.0
    requires forall q :: q in rival ==> q in pairs && q.sysIdx !in usedSystem && q.refIdx !in usedReference
    ensures Total(rival) <= 2.0 * Total(Chosen(Greedy(pairs, usedSystem, usedReference)))
  {
    if pairs == [] {
      assert rival == {};
    } else {
      var p, rest := pairs[0], pairs[1..];
      assert pairs == [p] + rest;
      if p.sysIdx in usedSystem || p.refIdx in usedReference {
        GreedyPaysForRival(rest, usedSystem, usedReference, rival);
      } else {
        var kept := set q | q in rival && !Conflict(p, q);
        HeadIsBest(pairs);
        ClashWeighsAtMostTwo(rival, p);
        GreedyPaysForRival(rest, usedSystem + {p.sysIdx}, usedReference + {p.refIdx}, kept);
        TotalOfChoice(p, rest, usedSystem, usedReference);
      }
    }
  }

  lemma HeadIsBest(pairs: seq<Pair>)
    requires Descending(pairs) && pairs != []
    ensures forall q :: q in pairs ==> q.score <= pairs[0].score
  {
    forall q | q in pairs ensures q.score <= pairs[0].score {
      var j :| 0 <= j < |pairs| && pairs[j] == q;
    }
  }

  lemma TotalOfChoice(p: Pair, rest: seq<Pair>, usedSystem: set<nat>, usedReference: set<nat>)
    ensures var tail := Greedy(rest, usedSystem + {p.sysIdx}, usedReference + {p.refIdx});
            Total(Chosen([p] + tail)) == p.score + Total(Chosen(tail))
  {
    var tail := Greedy(rest, usedSystem + {p.sysIdx}, usedReference + {p.refIdx});
    GreedyAvoidsUsed(rest, usedSystem + {p.sysIdx}, usedReference + {p.refIdx});
    TotalRemove(Chosen([p] + tail), p);
    assert Chosen([p] + tail) - {p} == Chosen(tail);
  }

  // ---------------------------------------------------------------------------------------
  // The method
  // ---------------------------------------------------------------------------------------

  /** What the alignment promises about its chosen pairs, in order of choice. */
  ghost predicate IsGoodAlignment(text: TextModel, reference: seq<string>, system: seq<string>, threshold: real, chosen: seq<Pair>) {
    && Descending(chosen)
    && (forall p :: p in chosen ==> IsEligible(text, reference, system, threshold, p))
    && OneToOne(Chosen(chosen))
    && (forall q :: IsEligible(text, reference, system, threshold, q) && q !in chosen ==>
          exists p :: p in chosen && Conflict(p, q) && Before(p, q))
  }

  method ScorePairs(text: TextModel, reference: seq<string>, system: seq<string>, threshold: real) returns (pairs: seq<Pair>)
    ensures Distinct(pairs)
    ensures forall p :: p in pairs <==> IsEligible(text, reference, system, threshold, p)
  {
    pairs := [];
    for sysIdx := 0 to |system|
      invariant Distinct(pairs)
      invariant forall p :: p in pairs <==> IsEligible(text, reference, system, threshold, p) && p.sysIdx < sysIdx
    {
      for refIdx := 0 to |reference|
        invariant Distinct(pairs)
        invariant forall p :: p in pairs <==>
          IsEligible(text, reference, system, threshold, p) && (p.sysIdx < sysIdx || (p.sysIdx == sysIdx && p.refIdx < refIdx))
      {
        var score := FastAlignmentScore(text, reference[refIdx], system[sysIdx]);
        if score >= threshold {
          pairs := pairs + [Pair(score, sysIdx, refIdx)];
        }
      }
    }
  }

  method AlignWithoutLlm(text: TextModel, reference: seq<string>, system: seq<string>, threshold: real)
    returns (systemOut: seq<string>, alignments: seq<Pair>)
    ensures IsGoodAlignment(text, reference, system, threshold, alignments)
    ensures RatioIsBounded(text) ==>
      forall rival: set<Pair> :: OneToOne(rival) && (forall q :: q in rival ==> IsEligible(text, reference, system, threshold, q))
        ==> Total(rival) <= 2.0 * Total(Chosen(alignments))
    ensures |systemOut| == |system|
    ensures forall p :: p in alignments ==> systemOut[p.sysIdx] == reference[p.refIdx]
    ensures forall s :: 0 <= s < |system| && (forall p :: p in alignments ==> p.sysIdx != s) ==> systemOut[s] == system[s]
  {
    var collected := ScorePairs(text, reference, system, threshold);
    var pairs := SortedDescending(collected);
    SortSorts(collected);

    var replacements;
    alignments, replacements := SelectGreedily(pairs);
    GreedyIsGood(text, reference, system, threshold, pairs);
    GreedyAvoidsUsed(pairs, {}, {});
    ReplacementsAreTheAlignment(alignments);
    systemOut := ReplaceItems(reference, system, replacements);
  }

  /** The greedy loop, with its two used-sets and its replacement dictionary. */
  method SelectGreedily(pairs: seq<Pair>) returns (alignments: seq<Pair>, replacements: map<nat, nat>)
    ensures alignments == Greedy(pairs, {}, {})
    ensures replacements == Replacements(alignments)
  {
    var usedSystem: set<nat> := {};
    var usedReference: set<nat> := {};
    replacements := map[];
    alignments := [];
    assert pairs[0..] == pairs;
    for k := 0 to |pairs|
      invariant Greedy(pairs, {}, {}) == alignments + Greedy(pairs[k..], usedSystem, usedReference)
      invariant replacements == Replacements(alignments)
    {
      var p := pairs[k];
      GreedyStep(pairs, k, usedSystem, usedReference);
      if p.sysIdx in usedSystem || p.refIdx in usedReference {
        continue;
      }
      Reassociate(alignments, [p], Greedy(pairs[k + 1..], usedSystem + {p.sysIdx}, usedReference + {p.refIdx}));
      ReplacementsAppend(alignments, p);
      usedSystem := usedSystem + {p.sysIdx};
      usedReference := usedReference + {p.refIdx};
      replacements := replacements[p.sysIdx := p.refIdx];
      alignments := alignments + [p];
    }
  }

  lemma ReplacementsAppend(alignments: seq<Pair>, p: Pair)
    ensures Replacements(alignments + [p]) == Replacements(alignments)[p.sysIdx := p.refIdx]
  {
    assert (alignments + [p])[..|alignments|] == alignments;
  }

  lemma GreedyStep(pairs: seq<Pair>, k: nat, usedSystem: set<nat>, usedReference: set<nat>)
    requires k < |pairs|
    ensures var p := pairs[k];
            Greedy(pairs[k..], usedSystem, usedReference) ==
            if p.sysIdx in usedSystem || p.refIdx in usedReference then Greedy(pairs[k + 1..], usedSystem, usedReference)
            else [p] + Greedy(pairs[k + 1..], usedSystem + {p.sysIdx}, usedReference + {p.refIdx})
  {
    assert pairs[k..][0] == pairs[k] && pairs[k..][1..] == pairs[k + 1..];
  }

  /** The dictionary from system index to reference index that a run of choices builds up. */
  function Replacements(alignments: seq<Pair>): map<nat, nat> {
    if alignments == [] then map[]
    else
      var last := alignments[|alignments| - 1];
      Replacements(alignments[..|alignments| - 1])[last.sysIdx := last.refIdx]
  }

  lemma {:induction false} ReplacementsHaveKeys(alignments: seq<Pair>)
    ensures Replacements(alignments).Keys == SystemIndices(alignments)
  {
    if alignments != [] {
      var n := |alignments| - 1;
      ReplacementsHaveKeys(alignments[..n]);
      assert alignments == alignments[..n] + [alignments[n]];
      assert SystemIndices(alignments) == SystemIndices(alignments[..n]) + {alignments[n].sysIdx};
    }
  }

  ghost predicate NoConflicts(alignments: seq<Pair>) {
    forall i, j :: 0 <= i < j < |alignments| ==> !Conflict(alignments[i], alignments[j])
  }

  lemma {:induction false} LastAvoidsFront(alignments: seq<Pair>)
    requires NoConflicts(alignments) && alignments != []
    ensures var n := |alignments| - 1;
            NoConflicts(alignments[..n]) && forall p :: p in alignments[..n] ==> p.sysIdx != alignments[n].sysIdx
  {
    var n := |alignments| - 1;
    forall p | p in alignments[..n] ensures p.sysIdx != alignments[n].sysIdx {
      var i :| 0 <= i < n && alignments[i] == p;
      assert !Conflict(alignments[i], alignments[n]);
    }
  }

  lemma {:induction false} ReplacementsAreTheAlignment(alignments: seq<Pair>)
    requires NoConflicts(alignments)
    ensures Replacements(alignments).Keys == SystemIndices(alignments)
    ensures forall p :: p in alignments ==> Replacements(alignments)[p.sysIdx] == p.refIdx
  {
    ReplacementsHaveKeys(alignments);
    if alignments != [] {
      var n := |alignments| - 1;
      LastAvoidsFront(alignments);
      ReplacementsAreTheAlignment(alignments[..n]);
      assert alignments == alignments[..n] + [alignments[n]];
    }
  }

  function SystemIndices(alignments: seq<Pair>): set<nat> {
    set p | p in alignments :: p.sysIdx
  }

  /** Each replaced system item becomes its reference item; the others stay. */
  method ReplaceItems(reference: seq<string>, system: seq<string>, replacements: map<nat, nat>) returns (systemOut: seq<string>)
    requires forall s :: s in replacements ==> replacements[s] < |reference|
    ensures |systemOut| == |system|
    ensures forall i :: 0 <= i < |system| ==> systemOut[i] == if i in replacements then reference[replacements[i]] else system[i]
  {
    systemOut := [];
    for s := 0 to |system|
      invariant |systemOut| == s
      invariant forall i :: 0 <= i < s ==> systemOut[i] == if i in replacements then reference[replacements[i]] else system[i]
    {
      if s in replacements {
        systemOut := systemOut + [reference[replacements[s]]];
      } else {
        systemOut := systemOut + [system[s]];
      }
    }
  }

  lemma {:induction false} GreedyKeepsOrder(pairs: seq<Pair>, usedSystem: set<nat>, usedReference: set<nat>)
    requires Descending(pairs)
    ensures Descending(Greedy(pairs, usedSystem, usedReference))
  {
    if pairs != [] {
      var p, rest := pairs[0], pairs[1..];
      GreedyKeepsOrder(rest, usedSystem, usedReference);
      GreedyKeepsOrder(rest, usedSystem + {p.sysIdx}, usedReference + {p.refIdx});
      var tail := Greedy(rest, usedSystem + {p.sysIdx}, usedReference + {p.refIdx});
      GreedyAvoidsUsed(rest, usedSystem + {p.sysIdx}, usedReference + {p.refIdx});
      forall q | q in tail ensures Before(p, q) {
        var j :| 0 <= j < |rest| && rest[j] == q;
        assert pairs[j + 1] == q;
      }
    }
  }

  /** Greedy choice over all eligible pairs in descending order is a good alignment and half-optimal. */
  lemma GreedyIsGood(text: TextModel, reference: seq<string>, system: seq<string>, threshold: real, pairs: seq<Pair>)
    requires Descending(pairs)
    requires forall p :: p in pairs <==> IsEligible(text, reference, system, threshold, p)
    ensures IsGoodAlignment(text, reference, system, threshold, Greedy(pairs, {}, {}))
    ensures RatioIsBounded(text) ==>
      forall rival: set<Pair> :: OneToOne(rival) && (forall q :: q in rival ==> IsEligible(text, reference, system, threshold, q))
        ==> Total(rival) <= 2.0 * Total(Chosen(Greedy(pairs, {}, {})))
  {
    var chosen := Greedy(pairs, {}, {});
    GreedyAvoidsUsed(pairs, {}, {});
    GreedyKeepsOrder(pairs, {}, {});
    forall q | IsEligible(text, reference, system, threshold, q) && q !in chosen
      ensures exists p :: p in chosen && Conflict(p, q) && Before(p, q)
    {
      GreedyIsStable(pairs, {}, {}, q);
    }
    if RatioIsBounded(text) {
      forall p | p in pairs ensures p.score >= 0.0 {
        ScoreIsBounded(text, reference[p.refIdx], system[p.sysIdx]);
      }
      forall rival: set<Pair> | OneToOne(rival) && (forall q :: q in rival ==> IsEligible(text, reference, system, threshold, q))
        ensures Total(rival) <= 2.0 * Total(Chosen(chosen))
      {
        GreedyPaysForRival(pairs, {}, {}, rival);
      }
    }
  }

  /** A contained text is eligible at the default threshold, whichever side it is on. */
  lemma ContainedIsEligible(text: TextModel, reference: seq<string>, system: seq<string>, refIdx: nat, sysIdx: nat)
    requires RatioIsBounded(text) && refIdx < |reference| && sysIdx < |system|
    requires IsContained(text, reference[refIdx], system[sysIdx]) || IsContained(text, system[sysIdx], reference[refIdx])
    ensures IsEligible(text, reference, system, THRESHOLD,
                       Pair(FastAlignmentScore(text, reference[refIdx], system[sysIdx]), sysIdx, refIdx))
  {
    if IsContained(text, reference[refIdx], system[sysIdx]) {
      ContainedScore(text, reference[refIdx], system[sysIdx]);
    } else {
      ContainedScore(text, system[sysIdx], reference[refIdx]);
    }
  }

  // ---------------------------------------------------------------------------------------
  // The bound is attained
  // ---------------------------------------------------------------------------------------

  const REFERENCE: seq<string> := ["ccc eee", "aaa bbb"]
  const SYSTEM: seq<string> := ["ddd aaa", "bbb ccc"]
  const THRESHOLD := 0.33

  /**
   * How the four texts are read: they are clean, have two tokens each, and the matcher finds three
   * common characters of seven, but only the space between the first ones of either list.
   */
  ghost predicate ReadsWords(text: TextModel) {
    && (forall item :: item in REFERENCE || item in SYSTEM ==> text.clean(item) == item)
    && text.tokens(REFERENCE[0]) == ["ccc", "eee"] && text.tokens(REFERENCE[1]) == ["aaa", "bbb"]
    && text.tokens(SYSTEM[0]) == ["ddd", "aaa"] && text.tokens(SYSTEM[1]) == ["bbb", "ccc"]
    && text.ratio(REFERENCE[1], SYSTEM[1]) == text.ratio(REFERENCE[1], SYSTEM[0]) == text.ratio(REFERENCE[0], SYSTEM[1]) == 3.0 / 7.0
    && text.ratio(REFERENCE[0], SYSTEM[0]) == 1.0 / 7.0
  }

  /** Two texts of two words each, with one word in common. */
  lemma OneWordInCommon(text: TextModel, first: string, second: string, shared: string, one: string, other: string)
    requires text.clean(first) != "" && text.clean(second) != "" && shared != one && shared != other && one != other
    requires TokenSet(text, first) == {shared, one} && TokenSet(text, second) == {shared, other}
    ensures FastAlignmentScore(text, first, second) == 0.35 + 0.2 * text.ratio(text.clean(first), text.clean(second))
  {
    assert {shared, one} * {shared, other} == {shared};
    assert {shared, one} + {shared, other} == {shared, one, other};
  }

  lemma NoWordInCommon(text: TextModel, first: string, second: string)
    requires text.clean(first) != "" && text.clean(second) != ""
    requires TokenSet(text, first) !! TokenSet(text, second)
    ensures FastAlignmentScore(text, first, second) == 0.2 * text.ratio(text.clean(first), text.clean(second))
  {
    assert TokenSet(text, first) * TokenSet(text, second) == {};
  }

  const TIE := 0.35 + 0.2 * (3.0 / 7.0)

  lemma TokensOfPair(text: TextModel, item: string, a: string, b: string)
    requires text.tokens(item) == [a, b]
    ensures TokenSet(text, item) == {a, b}
  {}

  lemma FourScores(text: TextModel)
    requires ReadsWords(text)
    ensures FastAlignmentScore(text, REFERENCE[1], SYSTEM[1]) == TIE
    ensures FastAlignmentScore(text, REFERENCE[0], SYSTEM[1]) == TIE
    ensures FastAlignmentScore(text, REFERENCE[1], SYSTEM[0]) == TIE
    ensures FastAlignmentScore(text, REFERENCE[0], SYSTEM[0]) < THRESHOLD < TIE
  {
    var a, b, c, d, e := "aaa", "bbb", "ccc", "ddd", "eee";
    assert REFERENCE[0] in REFERENCE && REFERENCE[1] in REFERENCE && SYSTEM[0] in SYSTEM && SYSTEM[1] in SYSTEM;
    TokensOfPair(text, REFERENCE[0], c, e);
    TokensOfPair(text, REFERENCE[1], a, b);
    TokensOfPair(text, SYSTEM[0], d, a);
    TokensOfPair(text, SYSTEM[1], b, c);
    OneWordInCommon(text, REFERENCE[1], SYSTEM[1], b, a, c);
    OneWordInCommon(text, REFERENCE[0], SYSTEM[1], c, e, b);
    OneWordInCommon(text, REFERENCE[1], SYSTEM[0], a, b, d);
    NoWordInCommon(text, REFERENCE[0], SYSTEM[0]);
  }

  lemma ThreeTies(text: TextModel)
    requires ReadsWords(text)
    ensures forall p :: IsEligible(text, REFERENCE, SYSTEM, THRESHOLD, p) <==> p in {Pair(TIE, 1, 1), Pair(TIE, 1, 0), Pair(TIE, 0, 1)}
  {
    FourScores(text);
    forall p ensures IsEligible(text, REFERENCE, SYSTEM, THRESHOLD, p) <==> p in {Pair(TIE, 1, 1), Pair(TIE, 1, 0), Pair(TIE, 0, 1)} {
      assert p.sysIdx < 2 && p.refIdx < 2 ==> p.sysIdx == 0 || p.sysIdx == 1;
      assert p.sysIdx < 2 && p.refIdx < 2 ==> p.refIdx == 0 || p.refIdx == 1;
    }
  }

  lemma TieTotals()
    ensures Total({Pair(TIE, 1, 1)}) == TIE && Total({Pair(TIE, 1, 0), Pair(TIE, 0, 1)}) == 2.0 * TIE
  {
    var a, b, c := Pair(TIE, 1, 1), Pair(TIE, 1, 0), Pair(TIE, 0, 1);
    TotalRemove({a}, a);
    TotalRemove({b, c}, b);
    TotalRemove({c}, c);
    assert {a} - {a} == {} && {b, c} - {b} == {c} && {c} - {c} == {};
  }

  /** The pair that meets both others is taken, and they are not. */
  lemma TieIsTaken(text: TextModel, pairs: seq<Pair>)
    requires ReadsWords(text) && Descending(pairs)
    requires forall p :: p in pairs <==> IsEligible(text, REFERENCE, SYSTEM, THRESHOLD, p)
    ensures Chosen(Greedy(pairs, {}, {})) == {Pair(TIE, 1, 1)}
  {
    ThreeTies(text);
    GreedyIsGood(text, REFERENCE, SYSTEM, THRESHOLD, pairs);
    BestTieStandsAlone(text, Greedy(pairs, {}, {}));
  }

  lemma BestTieStandsAlone(text: TextModel, chosen: seq<Pair>)
    requires IsGoodAlignment(text, REFERENCE, SYSTEM, THRESHOLD, chosen)
    requires forall p :: IsEligible(text, REFERENCE, SYSTEM, THRESHOLD, p) <==> p in {Pair(TIE, 1, 1), Pair(TIE, 1, 0), Pair(TIE, 0, 1)}
    ensures Chosen(chosen) == {Pair(TIE, 1, 1)}
  {
    var a, b, c := Pair(TIE, 1, 1), Pair(TIE, 1, 0), Pair(TIE, 0, 1);
    assert a in {a, b, c};
    assert a in chosen;
    forall p | p in Chosen(chosen) ensures p == a {
      assert p in chosen && a in Chosen(chosen);
      assert p in {a, b, c};
      assert Conflict(a, b) && Conflict(a, c);
    }
  }

  /**
   * One half cannot be improved: on these texts, with the default threshold, the pairs (0, 1) and
   * (1, 0) tie with the pair (1, 1), which meets both and is taken instead of them.
   */
  lemma HalfIsAttained(text: TextModel, pairs: seq<Pair>)
    requires ReadsWords(text) && Descending(pairs)
    requires forall p :: p in pairs <==> IsEligible(text, REFERENCE, SYSTEM, THRESHOLD, p)
    ensures var rival := {Pair(TIE, 1, 0), Pair(TIE, 0, 1)};
            && OneToOne(rival) && (forall q :: q in rival ==> IsEligible(text, REFERENCE, SYSTEM, THRESHOLD, q))
            && Total(rival) == 2.0 * Total(Chosen(Greedy(pairs, {}, {}))) > 0.0
  {
    ThreeTies(text);
    TieTotals();
    TieIsTaken(text, pairs);
  }
}
