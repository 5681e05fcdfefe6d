/**
 * Balanced question selection: candidates, shortest first, are taken one per needle count in
 * turn until enough are selected or all are used up.
 */
module RoundRobin {
  import opened Collections
  import opened OrderedKeys

  datatype Question = Question(id: string, needles: int, chars: int)

  /** The remaining candidates of one needle count. */
  datatype Bucket = Bucket(needles: int, items: seq<Question>)

  // ---------------------------------------------------------------------------------------
  // Candidates
  // ---------------------------------------------------------------------------------------

  function InsertByChars(q: Question, sorted: seq<Question>): seq<Question> {
    if sorted == [] || q.chars <= sorted[0].chars then [q] + sorted
    else [sorted[0]] + InsertByChars(q, sorted[1..])
  }

  /** The stable sort by context size. */
  function SortedByChars(candidates: seq<Question>): seq<Question> {
    if candidates == [] then [] else InsertByChars(candidates[0], SortedByChars(candidates[1..]))
  }

  ghost predicate ShortestFirst(questions: seq<Question>) {
    forall i, j :: 0 <= i < j < |questions| ==> questions[i].chars <= questions[j].chars
  }

  ghost predicate UniqueIds(questions: seq<Question>) {
    forall i, j :: 0 <= i < j < |questions| ==> questions[i].id != questions[j].id
  }

  lemma ConsIsShortestFirst(q: Question, rest: seq<Question>)
    requires ShortestFirst(rest) && forall x :: x in rest ==> q.chars <= x.chars
    ensures ShortestFirst([q] + rest)
  {}

  lemma {:induction false} InsertKeepsSorted(q: Question, sorted: seq<Question>)
    requires ShortestFirst(sorted)
    ensures ShortestFirst(InsertByChars(q, sorted))
  {
    if sorted != [] {
      if q.chars <= sorted[0].chars {
        ConsIsShortestFirst(q, sorted);
      } else {
        InsertKeepsSorted(q, sorted[1..]);
        InsertMembers(q, sorted[1..]);
        ConsIsShortestFirst(sorted[0], InsertByChars(q, sorted[1..]));
      }
    }
  }

  lemma {:induction false} InsertAdds(q: Question, sorted: seq<Question>)
    ensures multiset(InsertByChars(q, sorted)) == multiset{q} + multiset(sorted)
    ensures |InsertByChars(q, sorted)| == |sorted| + 1
  {
    if sorted != [] {
      assert sorted == [sorted[0]] + sorted[1..];
      InsertAdds(q, sorted[1..]);
    }
  }

  lemma {:induction false} InsertMembers(q: Question, sorted: seq<Question>)
    ensures forall x :: x in InsertByChars(q, sorted) <==> x == q || x in sorted
  {
    if sorted != [] {
      assert sorted == [sorted[0]] + sorted[1..];
      InsertMembers(q, sorted[1..]);
    }
  }

  lemma {:induction false} InsertKeepsUnique(q: Question, sorted: seq<Question>)
    requires UniqueIds(sorted) && forall x :: x in sorted ==> x.id != q.id
    ensures UniqueIds(InsertByChars(q, sorted))
  {
    if sorted != [] {
      assert sorted == [sorted[0]] + sorted[1..];
      assert forall x :: x in sorted[1..] ==> x.id != sorted[0].id;
      InsertKeepsUnique(q, sorted[1..]);
      InsertMembers(q, sorted[1..]);
    }
  }

  lemma {:induction false} SortSorts(candidates: seq<Question>)
    ensures ShortestFirst(SortedByChars(candidates))
    ensures multiset(SortedByChars(candidates)) == multiset(candidates)
    ensures |SortedByChars(candidates)| == |candidates|
  {
    if candidates != [] {
      assert candidates == [candidates[0]] + candidates[1..];
      SortSorts(candidates[1..]);
      InsertKeepsSorted(candidates[0], SortedByChars(candidates[1..]));
      InsertAdds(candidates[0], SortedByChars(candidates[1..]));
    }
  }

  lemma {:induction false} SortKeepsUnique(candidates: seq<Question>)
    requires UniqueIds(candidates)
    ensures UniqueIds(SortedByChars(candidates))
    ensures forall x :: x in SortedByChars(candidates) <==> x in candidates
  {
    if candidates != [] {
      assert candidates == [candidates[0]] + candidates[1..];
      assert forall x :: x in candidates[1..] ==> x.id != candidates[0].id;
      SortKeepsUnique(candidates[1..]);
      InsertKeepsUnique(candidates[0], SortedByChars(candidates[1..]));
      InsertMembers(candidates[0], SortedByChars(candidates[1..]));
    }
  }

  /** The questions with a given needle count, in order. */
  function Of(questions: seq<Question>, needles: int): seq<Question> {
    if questions == [] then []
    else (if questions[0].needles == needles then [questions[0]] else []) + Of(questions[1..], needles)
  }

  function NeedleCounts(questions: seq<Question>): set<int> {
    set q | q in questions :: q.needles
  }

  function BucketsFor(questions: seq<Question>, counts: seq<int>): (buckets: seq<Bucket>)
    ensures |buckets| == |counts|
    ensures forall i :: 0 <= i < |counts| ==> buckets[i] == Bucket(counts[i], Of(questions, counts[i]))
  {
    seq(|counts|, i requires 0 <= i < |counts| => Bucket(counts[i], Of(questions, counts[i])))
  }

  /** The needle groups in increasing order of needle count. */
  function Buckets(questions: seq<Question>): seq<Bucket> {
    BucketsFor(questions, Increasing(NeedleCounts(questions)))
  }

  // ---------------------------------------------------------------------------------------
  // The reference order
  // ---------------------------------------------------------------------------------------

  /** One round: the first question of every bucket that still has one. */
  function Heads(buckets: seq<Bucket>): seq<Question> {
    if buckets == [] then []
    else (if buckets[0].items == [] then [] else [buckets[0].items[0]]) + Heads(buckets[1..])
  }

  /** What a round leaves: the buckets that had a question, without it. */
  function Tails(buckets: seq<Bucket>): seq<Bucket> {
    if buckets == [] then []
    else (if buckets[0].items == [] then [] else [Bucket(buckets[0].needles, buckets[0].items[1..])]) + Tails(buckets[1..])
  }

  function Size(buckets: seq<Bucket>): nat {
    if buckets == [] then 0 else 1 + |buckets[0].items| + Size(buckets[1..])
  }

  lemma {:induction false} TailsAreSmaller(buckets: seq<Bucket>)
    ensures Size(Tails(buckets)) <= Size(buckets)
    ensures buckets != [] ==> Size(Tails(buckets)) < Size(buckets)
  {
    if buckets != [] {
      TailsAreSmaller(buckets[1..]);
      var head := if buckets[0].items == [] then [] else [Bucket(buckets[0].needles, buckets[0].items[1..])];
      SizeConcat(head, Tails(buckets[1..]));
      assert head != [] ==> head[1..] == [];
    }
  }

  lemma {:induction false} SizeConcat(a: seq<Bucket>, b: seq<Bucket>)
    ensures Size(a + b) == Size(a) + Size(b)
  {
    if a == [] {
      assert a + b == b;
    } else {
      assert (a + b)[1..] == a[1..] + b;
      SizeConcat(a[1..], b);
    }
  }

  /** All questions, round by round. */
  function Rounds(buckets: seq<Bucket>): seq<Question>
    decreases Size(buckets)
  {
    if buckets == [] then []
    else
      TailsAreSmaller(buckets);
      Heads(buckets) + Rounds(Tails(buckets))
  }

  predicate HasId(questions: seq<Question>, id: string) {
    exists q :: q in questions && q.id == id
  }

  /** Take questions off a stream, skipping ids already selected, until `count` are selected. */
  function Feed(stream: seq<Question>, selected: seq<Question>, count: nat): seq<Question>
    decreases |stream|
  {
    if stream == [] || |selected| >= count then selected
    else Feed(stream[1..], if HasId(selected, stream[0].id) then selected else selected + [stream[0]], count)
  }

  // ---------------------------------------------------------------------------------------
  // The method
  // ---------------------------------------------------------------------------------------

  method SelectQuestions(candidates: seq<Question>, count: nat) returns (selected: seq<Question>)
    ensures selected == Selection(candidates, count)
  {
    var sorted := SortedByChars(candidates);
    var active := Buckets(sorted);
    selected := [];
    ghost var goal := Feed(Rounds(active), [], count);
    while |selected| < count && active != []
      invariant Feed(Rounds(active), selected, count) == goal
      decreases if |selected| < count then 1 + Size(active) else 0
    {
      selected, active := OneRound(active, selected, count);
    }
  }

  /** One pass over the active buckets: stops when enough are selected, drops exhausted buckets. */
  method OneRound(active: seq<Bucket>, before: seq<Question>, count: nat) returns (selected: seq<Question>, remaining: seq<Bucket>)
    requires |before| < count && active != []
    ensures Feed(Rounds(remaining), selected, count) == Feed(Rounds(active), before, count)
    ensures |selected| >= count || Size(remaining) < Size(active)
  {
    selected := before;
    remaining := [];
    ghost var later := Rounds(Tails(active));
    ghost var goal := Feed(Rounds(active), before, count);
    TailsAreSmaller(active);
    assert active[0..] == active && Rounds(active) == Heads(active) + later;
    for g := 0 to |active|
      invariant Feed(Heads(active[g..]) + later, selected, count) == goal
      invariant Tails(active) == remaining + Tails(active[g..])
    {
      if |selected| >= count {
        assert goal == selected;
        return;
      }
      var items := active[g].items;
      HeadsAndTailsStep(active, g, remaining, later);
      if items != [] {
        if !HasId(selected, items[0].id) {
          selected := selected + [items[0]];
        }
        remaining := remaining + [Bucket(active[g].needles, items[1..])];
      }
    }
    assert active[|active|..] == [] && Heads([]) + later == later;
    assert remaining == Tails(active);
  }

  lemma HeadsAndTailsStep(active: seq<Bucket>, g: nat, remaining: seq<Bucket>, later: seq<Question>)
    requires g < |active|
    ensures var items := active[g].items;
            if items == [] then
              Heads(active[g..]) == Heads(active[g + 1..]) && Tails(active[g..]) == Tails(active[g + 1..])
            else
              && (Heads(active[g..]) + later)[0] == items[0]
              && (Heads(active[g..]) + later)[1..] == Heads(active[g + 1..]) + later
              && remaining + Tails(active[g..]) == remaining + [Bucket(active[g].needles, items[1..])] + Tails(active[g + 1..])
  {
    assert active[g..][0] == active[g] && active[g..][1..] == active[g + 1..];
  }

  // ---------------------------------------------------------------------------------------
  // What the order guarantees
  // ---------------------------------------------------------------------------------------

  ghost predicate WellKeyed(buckets: seq<Bucket>) {
    && (forall i, j :: 0 <= i < j < |buckets| ==> buckets[i].needles != buckets[j].needles)
    && (forall i, k :: 0 <= i < |buckets| && 0 <= k < |buckets[i].items| ==> buckets[i].items[k].needles == buckets[i].needles)
  }

  function ItemsOf(buckets: seq<Bucket>, needles: int): seq<Question> {
    if buckets == [] then []
    else if buckets[0].needles == needles then buckets[0].items
    else ItemsOf(buckets[1..], needles)
  }

  lemma {:induction false} TailsHaveKeys(buckets: seq<Bucket>)
    ensures forall b :: b in Tails(buckets) ==> exists i :: 0 <= i < |buckets| && buckets[i].needles == b.needles
  {
    if buckets != [] {
      TailsHaveKeys(buckets[1..]);
      forall b | b in Tails(buckets) ensures exists i :: 0 <= i < |buckets| && buckets[i].needles == b.needles {
        if b in Tails(buckets[1..]) {
          var i :| 0 <= i < |buckets[1..]| && buckets[1..][i].needles == b.needles;
          assert buckets[i + 1].needles == b.needles;
        }
      }
    }
  }

  lemma {:induction false} TailsKeepKeys(buckets: seq<Bucket>)
    requires WellKeyed(buckets)
    ensures WellKeyed(Tails(buckets))
  {
    if buckets != [] {
      var head, rest := buckets[0], buckets[1..];
      assert WellKeyed(rest) by {
        assert forall i :: 0 <= i < |rest| ==> rest[i] == buckets[i + 1];
      }
      TailsKeepKeys(rest);
      TailsHaveKeys(rest);
      if head.items != [] {
        forall b | b in Tails(rest) ensures b.needles != head.needles {
          var i :| 0 <= i < |rest| && rest[i].needles == b.needles;
          assert buckets[i + 1].needles != buckets[0].needles;
        }
      }
    }
  }

  lemma TailsStep(buckets: seq<Bucket>, needles: int)
    requires buckets != []
    ensures ItemsOf(Tails(buckets), needles) ==
            if buckets[0].items != [] && buckets[0].needles == needles then buckets[0].items[1..]
            else ItemsOf(Tails(buckets[1..]), needles)
  {
    var later := Tails(buckets[1..]);
    if buckets[0].items == [] {
      assert Tails(buckets) == later;
    } else {
      assert Tails(buckets)[1..] == later;
    }
  }

  /** Of each needle count a round takes the head and leaves the tail. */
  lemma {:induction false} RoundTakesHeads(buckets: seq<Bucket>, needles: int)
    requires WellKeyed(buckets)
    ensures var items := ItemsOf(buckets, needles);
            && Of(Heads(buckets), needles) == (if items == [] then [] else [items[0]])
            && ItemsOf(Tails(buckets), needles) == (if items == [] then [] else items[1..])
  {
    if buckets != [] {
      var rest := buckets[1..];
      assert forall i :: 0 <= i < |rest| ==> rest[i] == buckets[i + 1];
      RoundTakesHeads(rest, needles);
      TailsStep(buckets, needles);
      var head := if buckets[0].items == [] then [] else [buckets[0].items[0]];
      OfConcat(head, Heads(rest), needles);
      assert head != [] ==> head[1..] == [];
      if buckets[0].needles == needles {
        AbsentKey(rest, needles);
      }
    }
  }

  lemma {:induction false} AbsentKey(buckets: seq<Bucket>, needles: int)
    requires forall i :: 0 <= i < |buckets| ==> buckets[i].needles != needles
    ensures ItemsOf(buckets, needles) == []
  {
    if buckets != [] {
      AbsentKey(buckets[1..], needles);
    }
  }

  lemma {:induction false} OfConcat(a: seq<Question>, b: seq<Question>, needles: int)
    ensures Of(a + b, needles) == Of(a, needles) + Of(b, needles)
  {
    if a == [] {
      assert a + b == b;
    } else {
      assert (a + b)[1..] == a[1..] + b;
      OfConcat(a[1..], b, needles);
      Reassociate(if a[0].needles == needles then [a[0]] else [], Of(a[1..], needles), Of(b, needles));
    }
  }

  lemma OfPrefix(questions: seq<Question>, n: nat, needles: int)
    requires n <= |questions|
    ensures Of(questions[..n], needles) <= Of(questions, needles)
  {
    assert questions == questions[..n] + questions[n..];
    OfConcat(questions[..n], questions[n..], needles);
  }

  /** The first `n` questions of the rounds take a prefix of each bucket. */
  lemma {:induction false} RoundsTakePrefixes(buckets: seq<Bucket>, n: nat, needles: int)
    requires WellKeyed(buckets) && n <= |Rounds(buckets)|
    ensures Of(Rounds(buckets)[..n], needles) <= ItemsOf(buckets, needles)
    decreases Size(buckets)
  {
    if buckets != [] {
      var heads, later := Heads(buckets), Rounds(Tails(buckets));
      RoundTakesHeads(buckets, needles);
      TailsAreSmaller(buckets);
      TailsKeepKeys(buckets);
      if n <= |heads| {
        assert (heads + later)[..n] == heads[..n];
        OfPrefix(heads, n, needles);
      } else {
        assert (heads + later)[..n] == heads + later[..n - |heads|];
        OfConcat(heads, later[..n - |heads|], needles);
        RoundsTakePrefixes(Tails(buckets), n - |heads|, needles);
      }
    }
  }

  /** Fairness: no bucket gets more than one ahead of a bucket that is not yet exhausted. */
  lemma {:induction false} RoundsAreFair(buckets: seq<Bucket>, n: nat, a: int, b: int)
    requires WellKeyed(buckets) && n <= |Rounds(buckets)|
    requires |Of(Rounds(buckets)[..n], a)| < |ItemsOf(buckets, a)|
    ensures |Of(Rounds(buckets)[..n], b)| <= |Of(Rounds(buckets)[..n], a)| + 1
    decreases Size(buckets)
  {
    if buckets != [] {
      var heads, later := Heads(buckets), Rounds(Tails(buckets));
      RoundTakesHeads(buckets, a);
      RoundTakesHeads(buckets, b);
      TailsAreSmaller(buckets);
      TailsKeepKeys(buckets);
      if n <= |heads| {
        assert (heads + later)[..n] == heads[..n];
        OfPrefix(heads, n, b);
      } else {
        var taken := later[..n - |heads|];
        assert (heads + later)[..n] == heads + taken;
        OfConcat(heads, taken, a);
        OfConcat(heads, taken, b);
        RoundsAreFair(Tails(buckets), n - |heads|, a, b);
        assert |Of(taken, b)| <= |Of(taken, a)| + 1;
        RoundsTakePrefixes(Tails(buckets), n - |heads|, b);
      }
    }
  }

  lemma {:induction false} RoundsComplete(buckets: seq<Bucket>)
    ensures multiset(Rounds(buckets)) == AllItems(buckets)
    decreases Size(buckets)
  {
    if buckets != [] {
      TailsAreSmaller(buckets);
      RoundsComplete(Tails(buckets));
      HeadsAndTails(buckets);
    }
  }

  ghost function AllItems(buckets: seq<Bucket>): multiset<Question> {
    if buckets == [] then multiset{} else multiset(buckets[0].items) + AllItems(buckets[1..])
  }

  lemma {:induction false} HeadsAndTails(buckets: seq<Bucket>)
    ensures multiset(Heads(buckets)) + AllItems(Tails(buckets)) == AllItems(buckets)
  {
    if buckets != [] {
      HeadsAndTails(buckets[1..]);
      if buckets[0].items == [] {
        assert Heads(buckets) == Heads(buckets[1..]) && Tails(buckets) == Tails(buckets[1..]);
      } else {
        HeadAndTailOf(buckets[0], Heads(buckets[1..]), Tails(buckets[1..]));
      }
    }
  }

  lemma HeadAndTailOf(bucket: Bucket, heads: seq<Question>, tails: seq<Bucket>)
    requires bucket.items != []
    ensures multiset([bucket.items[0]] + heads) + AllItems([Bucket(bucket.needles, bucket.items[1..])] + tails)
            == multiset(bucket.items) + (multiset(heads) + AllItems(tails))
  {
    assert bucket.items == [bucket.items[0]] + bucket.items[1..];
  }

  /** Feeding from a stream of unseen, pairwise different ids is taking a prefix. */
  lemma {:induction false} FeedTakesPrefix(stream: seq<Question>, selected: seq<Question>, count: nat)
    requires UniqueIds(selected + stream) && |selected| <= count
    ensures var n := if |stream| <= count - |selected| then |stream| else count - |selected|;
            Feed(stream, selected, count) == selected + stream[..n]
    decreases |stream|
  {
    if stream != [] && |selected| < count {
      var q, rest := stream[0], stream[1..];
      assert selected + stream == (selected + [q]) + rest;
      assert (selected + stream)[|selected|] == q;
      forall p | p in selected ensures p.id != q.id {
        var i :| 0 <= i < |selected| && selected[i] == p;
        assert (selected + stream)[i] == p;
      }
      FeedTakesPrefix(rest, selected + [q], count);
    }
  }

  // ---------------------------------------------------------------------------------------
  // The selection
  // ---------------------------------------------------------------------------------------

  lemma {:induction false} OfKeepsOrder(questions: seq<Question>, needles: int)
    requires ShortestFirst(questions)
    ensures ShortestFirst(Of(questions, needles))
    ensures forall q :: q in Of(questions, needles) <==> q in questions && q.needles == needles
  {
    if questions != [] {
      assert questions == [questions[0]] + questions[1..];
      assert forall q :: q in questions[1..] ==> questions[0].chars <= q.chars;
      OfKeepsOrder(questions[1..], needles);
    }
  }

  lemma {:induction false} ItemsOfBuckets(questions: seq<Question>, counts: seq<int>, needles: int)
    requires forall i, j :: 0 <= i < j < |counts| ==> counts[i] != counts[j]
    ensures ItemsOf(BucketsFor(questions, counts), needles) == if needles in counts then Of(questions, needles) else []
  {
    if counts != [] {
      var buckets := BucketsFor(questions, counts);
      assert buckets[1..] == BucketsFor(questions, counts[1..]);
      assert counts == [counts[0]] + counts[1..];
      ItemsOfBuckets(questions, counts[1..], needles);
    }
  }

  lemma {:induction false} OfNone(questions: seq<Question>, needles: int)
    requires forall q :: q in questions ==> q.needles != needles
    ensures Of(questions, needles) == []
  {
    if questions != [] {
      assert questions[0] in questions;
      OfNone(questions[1..], needles);
    }
  }

  lemma BucketsAreGroups(questions: seq<Question>, needles: int)
    requires ShortestFirst(questions)
    ensures WellKeyed(Buckets(questions))
    ensures ItemsOf(Buckets(questions), needles) == Of(questions, needles)
  {
    var counts := Increasing(NeedleCounts(questions));
    ItemsOfBuckets(questions, counts, needles);
    if needles !in counts {
      OfNone(questions, needles);
    }
    forall i, k | 0 <= i < |counts| && 0 <= k < |Of(questions, counts[i])|
      ensures Of(questions, counts[i])[k].needles == counts[i]
    {
      OfKeepsOrder(questions, counts[i]);
      assert Of(questions, counts[i])[k] in Of(questions, counts[i]);
    }
  }

  /** Splitting by the needle counts in a list of different counts covers exactly those questions. */
  lemma {:induction false} BucketsCover(questions: seq<Question>, counts: seq<int>)
    requires forall i, j :: 0 <= i < j < |counts| ==> counts[i] != counts[j]
    ensures AllItems(BucketsFor(questions, counts)) == multiset(Among(questions, counts))
  {
    if counts == [] {
      AmongNone(questions);
    } else {
      var rest := counts[1..];
      BucketsCover(questions, rest);
      AmongSplit(questions, counts[0], rest);
      assert BucketsFor(questions, counts) == [Bucket(counts[0], Of(questions, counts[0]))] + BucketsFor(questions, rest);
      assert counts == [counts[0]] + rest;
    }
  }

  function Among(questions: seq<Question>, counts: seq<int>): seq<Question> {
    if questions == [] then []
    else (if questions[0].needles in counts then [questions[0]] else []) + Among(questions[1..], counts)
  }

  lemma {:induction false} AmongNone(questions: seq<Question>)
    ensures Among(questions, []) == []
  {
    if questions != [] {
      AmongNone(questions[1..]);
    }
  }

  lemma {:induction false} AmongSplit(questions: seq<Question>, needles: int, rest: seq<int>)
    requires needles !in rest
    ensures multiset(Among(questions, [needles] + rest)) == multiset(Of(questions, needles)) + multiset(Among(questions, rest))
  {
    if questions != [] {
      AmongSplit(questions[1..], needles, rest);
    }
  }

  lemma {:induction false} AmongAll(questions: seq<Question>, counts: seq<int>)
    requires forall q :: q in questions ==> q.needles in counts
    ensures Among(questions, counts) == questions
  {
    if questions != [] {
      assert questions[0] in questions;
      AmongAll(questions[1..], counts);
      assert questions == [questions[0]] + questions[1..];
    }
  }

  /** The rounds are a rearrangement of the candidates. */
  lemma RoundsRearrange(questions: seq<Question>)
    ensures multiset(Rounds(Buckets(questions))) == multiset(questions)
  {
    var counts := Increasing(NeedleCounts(questions));
    RoundsComplete(Buckets(questions));
    BucketsCover(questions, counts);
    AmongAll(questions, counts);
  }

  lemma RearrangedIsUnique(a: seq<Question>, b: seq<Question>)
    requires multiset(a) == multiset(b) && UniqueIds(a)
    ensures |a| == |b| && UniqueIds(b)
  {
    assert |multiset(a)| == |a| && |multiset(b)| == |b|;
    forall i, j | 0 <= i < j < |b| ensures b[i].id != b[j].id {
      if b[i].id == b[j].id {
        assert b[i] in multiset(a) && b[j] in multiset(a);
        assert b[i] in a && b[j] in a;
        var k :| 0 <= k < |a| && a[k] == b[i];
        var m :| 0 <= m < |a| && a[m] == b[j];
        assert k == m && b[i] == b[j];
        TwiceInMultiset(b, i, j);
        OnceInMultiset(a, k);
      }
    }
  }

  lemma TwiceInMultiset(s: seq<Question>, i: nat, j: nat)
    requires i < j < |s| && s[i] == s[j]
    ensures multiset(s)[s[i]] >= 2
  {
    var a, b, c := s[..i], s[i + 1..j], s[j + 1..];
    assert s == a + [s[i]] + b + [s[j]] + c;
    assert multiset(s) == multiset(a) + multiset{s[i]} + multiset(b) + multiset{s[j]} + multiset(c);
  }

  lemma OnceInMultiset(s: seq<Question>, k: nat)
    requires k < |s| && UniqueIds(s)
    ensures multiset(s)[s[k]] == 1
  {
    var a, b := s[..k], s[k + 1..];
    assert s == a + [s[k]] + b;
    assert s[k] !in a && s[k] !in b;
    assert multiset(s) == multiset(a) + multiset{s[k]} + multiset(b);
  }

  /** What round-robin selection returns, as a function. */
  function Selection(candidates: seq<Question>, count: nat): seq<Question> {
    Feed(Rounds(Buckets(SortedByChars(candidates))), [], count)
  }

  /** With unique ids the selection is a prefix of the rounds, as long as asked for or available. */
  lemma SelectionIsPrefix(candidates: seq<Question>, count: nat)
    requires UniqueIds(candidates)
    ensures var rounds := Rounds(Buckets(SortedByChars(candidates)));
            |rounds| == |candidates| && Selection(candidates, count) == rounds[..if |rounds| <= count then |rounds| else count]
  {
    var sorted := SortedByChars(candidates);
    var rounds := Rounds(Buckets(sorted));
    SortSorts(candidates);
    SortKeepsUnique(candidates);
    RoundsRearrange(sorted);
    RearrangedIsUnique(sorted, rounds);
    assert [] + rounds == rounds;
    FeedTakesPrefix(rounds, [], count);
  }

  /**
   * Round-robin selection with unique ids: it returns exactly as many questions as asked for or
   * available, takes the shortest of each needle count first, and never lets one needle count get
   * more than one ahead of another that still has unselected candidates.
   */
  lemma SelectionIsBalanced(candidates: seq<Question>, count: nat, a: int, b: int)
    requires UniqueIds(candidates)
    ensures var sorted, selected := SortedByChars(candidates), Selection(candidates, count);
            && |selected| == (if |candidates| <= count then |candidates| else count)
            && ShortestFirst(sorted) && multiset(sorted) == multiset(candidates)
            && Of(selected, a) <= Of(sorted, a)
            && (|Of(selected, a)| < |Of(sorted, a)| ==> |Of(selected, b)| <= |Of(selected, a)| + 1)
  {
    var sorted := SortedByChars(candidates);
    var buckets := Buckets(sorted);
    var selected := Selection(candidates, count);
    SortSorts(candidates);
    SelectionIsPrefix(candidates, count);
    BucketsAreGroups(sorted, a);
    BucketsAreGroups(sorted, b);
    RoundsTakePrefixes(buckets, |selected|, a);
    if |Of(selected, a)| < |Of(sorted, a)| {
      RoundsAreFair(buckets, |selected|, a, b);
    }
  }
}
