/**
 * The order of a round-robin selection: rounds one after the other, within a round smaller needle
 * counts first, and questions of equal size in dataset order. And what holds when ids repeat.
 */
module RoundOrder {
  import opened Collections
  import opened OrderedKeys
  import opened RoundRobin

  // ---------------------------------------------------------------------------------------
  // Equal sizes
  // ---------------------------------------------------------------------------------------

  ghost function OfSize(questions: seq<Question>, chars: int): seq<Question> {
    if questions == [] then []
    else Own(questions[0], chars) + OfSize(questions[1..], chars)
  }

  ghost function Own(q: Question, chars: int): seq<Question> {
    if q.chars == chars then [q] else []
  }

  lemma OfSizeCons(q: Question, rest: seq<Question>, chars: int)
    ensures OfSize([q] + rest, chars) == Own(q, chars) + OfSize(rest, chars)
  {
    assert ([q] + rest)[1..] == rest;
  }

  lemma {:induction false} InsertIsStable(q: Question, sorted: seq<Question>, chars: int)
    requires ShortestFirst(sorted)
    ensures OfSize(InsertByChars(q, sorted), chars) == Own(q, chars) + OfSize(sorted, chars)
  {
    if sorted == [] || q.chars <= sorted[0].chars {
      OfSizeCons(q, sorted, chars);
    } else {
      var first, rest := sorted[0], sorted[1..];
      assert sorted == [first] + rest;
      InsertIsStable(q, rest, chars);
      OfSizeCons(first, InsertByChars(q, rest), chars);
      OfSizeCons(first, rest, chars);
    }
  }

  /** The sort by size is stable: the questions of each size stay in dataset order. */
  lemma {:induction false} SortIsStable(candidates: seq<Question>, chars: int)
    ensures OfSize(SortedByChars(candidates), chars) == OfSize(candidates, chars)
  {
    if candidates != [] {
      SortSorts(candidates[1..]);
      SortIsStable(candidates[1..], chars);
      InsertIsStable(candidates[0], SortedByChars(candidates[1..]), chars);
      assert OfSize(candidates, chars) == Own(candidates[0], chars) + OfSize(candidates[1..], chars);
    }
  }

  // ---------------------------------------------------------------------------------------
  // Rounds
  // ---------------------------------------------------------------------------------------

  /** How many questions with the same needle count stand before it: its round. */
  ghost function RoundOf(questions: seq<Question>, i: nat): nat
    requires i < |questions|
  {
    |Of(questions[..i], questions[i].needles)|
  }

  /** In an earlier round, or in the same round with a smaller needle count. */
  ghost predicate RoundsBefore(questions: seq<Question>, i: nat, j: nat)
    requires i < |questions| && j < |questions|
  {
    || RoundOf(questions, i) < RoundOf(questions, j)
    || (RoundOf(questions, i) == RoundOf(questions, j) && questions[i].needles < questions[j].needles)
  }

  ghost predicate InRounds(questions: seq<Question>) {
    forall i, j :: 0 <= i < j < |questions| ==> RoundsBefore(questions, i, j)
  }

  ghost predicate NeedlesIncrease(buckets: seq<Bucket>) {
    forall i, j :: 0 <= i < j < |buckets| ==> buckets[i].needles < buckets[j].needles
  }

  lemma {:induction false} TailsIncrease(buckets: seq<Bucket>)
    requires NeedlesIncrease(buckets)
    ensures NeedlesIncrease(Tails(buckets))
    ensures forall b :: b in Tails(buckets) ==> exists i :: 0 <= i < |buckets| && buckets[i].needles == b.needles
  {
    TailsHaveKeys(buckets);
    if buckets != [] {
      TailsIncrease(buckets[1..]);
      TailsHaveKeys(buckets[1..]);
      assert forall i :: 0 <= i < |buckets[1..]| ==> buckets[1..][i] == buckets[i + 1];
    }
  }

  /** The heads of a round have increasing needle counts, those of the bucket list on. */
  lemma {:induction false} HeadsIncrease(buckets: seq<Bucket>)
    requires NeedlesIncrease(buckets) && WellKeyed(buckets)
    ensures forall i, j :: 0 <= i < j < |Heads(buckets)| ==> Heads(buckets)[i].needles < Heads(buckets)[j].needles
    ensures forall q :: q in Heads(buckets) ==> q.needles >= buckets[0].needles
  {
    if buckets != [] {
      var rest := buckets[1..];
      assert forall i :: 0 <= i < |rest| ==> rest[i] == buckets[i + 1];
      HeadsIncrease(rest);
      if buckets[0].items != [] {
        assert buckets[0].items[0].needles == buckets[0].needles;
      }
    }
  }

  lemma {:induction false} OfHas(questions: seq<Question>, k: nat)
    requires k < |questions|
    ensures Of(questions, questions[k].needles) != []
  {
    if k > 0 {
      OfHas(questions[1..], k - 1);
    }
  }

  /** In the first round nothing of the same needle count stands before a question. */
  lemma HeadsAreFirst(heads: seq<Question>, later: seq<Question>, i: nat)
    requires forall i, j :: 0 <= i < j < |heads| ==> heads[i].needles < heads[j].needles
    requires i < |heads|
    ensures RoundOf(heads + later, i) == 0
  {
    assert (heads + later)[..i] == heads[..i];
    OfNone(heads[..i], heads[i].needles);
  }

  /** Behind the first round every question is one round later than among the rest. */
  lemma LaterIsOneOn(heads: seq<Question>, later: seq<Question>, k: nat)
    requires k < |later| && |Of(heads, later[k].needles)| == 1
    ensures RoundOf(heads + later, |heads| + k) == 1 + RoundOf(later, k)
  {
    assert (heads + later)[..|heads| + k] == heads + later[..k];
    OfConcat(heads, later[..k], later[k].needles);
  }

  lemma RoundsComeFromBuckets(buckets: seq<Bucket>, k: nat)
    requires WellKeyed(buckets) && k < |Rounds(buckets)|
    ensures ItemsOf(buckets, Rounds(buckets)[k].needles) != []
  {
    var rounds := Rounds(buckets);
    RoundsTakePrefixes(buckets, |rounds|, rounds[k].needles);
    assert rounds[..|rounds|] == rounds;
    OfHas(rounds, k);
  }

  /** Whatever is left after a round has its needle count in that round. */
  lemma LaterHasHead(buckets: seq<Bucket>, k: nat)
    requires WellKeyed(buckets) && k < |Rounds(Tails(buckets))|
    ensures |Of(Heads(buckets), Rounds(Tails(buckets))[k].needles)| == 1
  {
    TailsKeepKeys(buckets);
    RoundsComeFromBuckets(Tails(buckets), k);
    RoundTakesHeads(buckets, Rounds(Tails(buckets))[k].needles);
  }

  lemma JoinedPair(heads: seq<Question>, later: seq<Question>, i: nat, j: nat)
    requires i < j < |heads + later|
    requires forall i, j :: 0 <= i < j < |heads| ==> heads[i].needles < heads[j].needles
    requires forall k :: 0 <= k < |later| ==> |Of(heads, later[k].needles)| == 1
    requires InRounds(later)
    ensures RoundsBefore(heads + later, i, j)
  {
    if i < |heads| {
      HeadsAreFirst(heads, later, i);
      if j < |heads| {
        HeadsAreFirst(heads, later, j);
      } else {
        LaterIsOneOn(heads, later, j - |heads|);
      }
    } else {
      LaterIsOneOn(heads, later, i - |heads|);
      LaterIsOneOn(heads, later, j - |heads|);
      assert RoundsBefore(later, i - |heads|, j - |heads|);
    }
  }

  lemma {:induction false} RoundsAreInRounds(buckets: seq<Bucket>)
    requires WellKeyed(buckets) && NeedlesIncrease(buckets)
    ensures InRounds(Rounds(buckets))
    decreases Size(buckets)
  {
    if buckets != [] {
      var heads, later := Heads(buckets), Rounds(Tails(buckets));
      TailsAreSmaller(buckets);
      TailsKeepKeys(buckets);
      TailsIncrease(buckets);
      HeadsIncrease(buckets);
      RoundsAreInRounds(Tails(buckets));
      forall k | 0 <= k < |later| ensures |Of(heads, later[k].needles)| == 1 {
        LaterHasHead(buckets, k);
      }
      forall i, j | 0 <= i < j < |heads + later| ensures RoundsBefore(heads + later, i, j) {
        JoinedPair(heads, later, i, j);
      }
    }
  }

  lemma PrefixIsInRounds(questions: seq<Question>, n: nat)
    requires n <= |questions| && InRounds(questions)
    ensures InRounds(questions[..n])
  {
    var front := questions[..n];
    forall i, j | 0 <= i < j < n ensures RoundsBefore(front, i, j) {
      assert front[..i] == questions[..i] && front[..j] == questions[..j];
      assert RoundsBefore(questions, i, j);
    }
  }

  /** A selection is in rounds, and within a round in increasing order of needle counts. */
  lemma SelectionIsInRounds(candidates: seq<Question>, count: nat)
    requires UniqueIds(candidates)
    ensures InRounds(Selection(candidates, count))
  {
    var sorted := SortedByChars(candidates);
    var buckets := Buckets(sorted);
    SortSorts(candidates);
    BucketsAreGroups(sorted, 0);
    RoundsAreInRounds(buckets);
    SelectionIsPrefix(candidates, count);
    PrefixIsInRounds(Rounds(buckets), if |Rounds(buckets)| <= count then |Rounds(buckets)| else count);
  }

  // ---------------------------------------------------------------------------------------
  // When ids repeat
  // ---------------------------------------------------------------------------------------

  lemma {:induction false} FeedIsSound(stream: seq<Question>, selected: seq<Question>, count: nat)
    requires UniqueIds(selected) && |selected| <= count
    ensures var out := Feed(stream, selected, count);
            && UniqueIds(out) && |out| <= count && selected <= out
            && (forall q :: q in out ==> q in selected || q in stream)
            && (|out| < count ==> forall q :: q in stream ==> HasId(out, q.id))
    decreases |stream|
  {
    if stream != [] && |selected| < count {
      var next := if HasId(selected, stream[0].id) then selected else selected + [stream[0]];
      assert HasId(next, stream[0].id) by {
        if !HasId(selected, stream[0].id) {
          assert next[|selected|] == stream[0];
          assert stream[0] in next;
        }
      }
      assert stream == [stream[0]] + stream[1..];
      FeedIsSound(stream[1..], next, count);
      HasIdStays(next, Feed(stream[1..], next, count), stream[0].id);
    }
  }

  lemma HasIdStays(a: seq<Question>, b: seq<Question>, id: string)
    requires a <= b && HasId(a, id)
    ensures HasId(b, id)
  {
    var q :| q in a && q.id == id;
    var i :| 0 <= i < |a| && a[i] == q;
    assert b[i] == q;
  }

  /** Whatever the ids: no id is selected twice, and fewer than asked for only if every id is selected. */
  lemma SelectionIsSound(candidates: seq<Question>, count: nat)
    ensures var out := Selection(candidates, count);
            && UniqueIds(out) && |out| <= count
            && (forall q :: q in out ==> q in candidates)
            && (|out| < count ==> forall q :: q in candidates ==> HasId(out, q.id))
  {
    var sorted := SortedByChars(candidates);
    var rounds := Rounds(Buckets(sorted));
    SortSorts(candidates);
    RoundsRearrange(sorted);
    FeedIsSound(rounds, [], count);
    forall q ensures q in rounds <==> q in candidates {
      assert q in rounds <==> q in multiset(rounds);
      assert q in candidates <==> q in multiset(candidates);
    }
  }
}
