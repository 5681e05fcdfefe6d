/**
 * Rebuilding missing tag summaries from stored segments: which tags need a summary, which
 * segments and rows feed each of them, and why a repeated run does no work.
 */
module Backfill {
  import opened IdOrder

  /** Something with a primary tag and further tags: a stored segment or a canonical row. */
  datatype Tagged<T> = Tagged(value: T, primaryTag: string, tags: seq<string>)

  /** Whether an item counts for a tag; an empty primary tag counts for nothing. */
  predicate Carries<T>(item: Tagged<T>, tag: string) {
    tag in item.tags || (item.primaryTag != "" && tag == item.primaryTag)
  }

  function TagsOf<T>(item: Tagged<T>): (tags: set<string>)
    ensures forall t :: t in tags <==> Carries(item, t)
  {
    (set t | t in item.tags) + (if item.primaryTag != "" then {item.primaryTag} else {})
  }

  type Segment = Tagged<string>

  datatype CanonicalRow = CanonicalRow(turnNumber: int, canonicalTurnId: string, primaryTag: string, tags: seq<string>)

  datatype TagSummary = TagSummary(tag: string, summary: string, coversThroughTurn: int)

  type Summaries = map<string, TagSummary>

  /** What the compactor is asked for. */
  datatype Request = Request(
    coverTags: seq<string>,
    tagToSummaries: map<string, seq<string>>,
    tagToTurns: map<string, seq<int>>,
    tagToCanonicalTurnIds: map<string, seq<string>>,
    existing: Summaries,
    maxTurn: int)

  type Compactor = Request -> seq<TagSummary>

  // ---------------------------------------------------------------------------------------
  // Cover tags and posting lists
  // ---------------------------------------------------------------------------------------

  predicate IsCoverTag(tag: string) {
    tag != "" && tag != "_general"
  }

  /** The tags that should have a summary: those of any segment, but neither empty nor general. */
  ghost predicate Covers(segments: seq<Segment>, tag: string) {
    IsCoverTag(tag) && exists i :: 0 <= i < |segments| && Carries(segments[i], tag)
  }

  method DeriveCoverTags(segments: seq<Segment>) returns (cover: set<string>)
    ensures forall t :: t in cover <==> Covers(segments, t)
  {
    cover := {};
    for i := 0 to |segments|
      invariant forall t :: t in cover <==> IsCoverTag(t) && exists j :: 0 <= j < i && Carries(segments[j], t)
    {
      ghost var before := cover;
      var segment := segments[i];
      if segment.primaryTag != "" && segment.primaryTag != "_general" {
        cover := cover + {segment.primaryTag};
      }
      for k := 0 to |segment.tags|
        invariant forall t :: t in cover <==> (t in before || (IsCoverTag(t) && (t in segment.tags[..k] || t == segment.primaryTag)))
      {
        var tag := segment.tags[k];
        assert segment.tags[..k + 1] == segment.tags[..k] + [tag];
        if tag != "" && tag != "_general" {
          cover := cover + {tag};
        }
      }
      assert segment.tags[..|segment.tags|] == segment.tags;
      forall t ensures t in cover <==> t in before || (IsCoverTag(t) && Carries(segment, t)) {}
    }
  }

  /** The values of the items that carry a tag, in order. */
  function Postings<T>(items: seq<Tagged<T>>, tag: string): seq<T> {
    if items == [] then []
    else
      var n := |items| - 1;
      Postings(items[..n], tag) + (if Carries(items[n], tag) then [items[n].value] else [])
  }

  /** A segment counts for its primary tag even if its list is empty, and for all tags of its list. */
  lemma CoversOne(segment: Segment, tag: string)
    ensures Covers([segment], tag) <==> tag != "" && tag != "_general" && (tag == segment.primaryTag || tag in segment.tags)
  {
    if Covers([segment], tag) {
      assert Carries(segment, tag);
    } else if IsCoverTag(tag) {
      assert [segment][0] == segment;
    }
  }

  /** More segments cover what either part covers. */
  lemma CoversConcat(a: seq<Segment>, b: seq<Segment>, tag: string)
    ensures Covers(a + b, tag) <==> Covers(a, tag) || Covers(b, tag)
  {
    if Covers(a + b, tag) {
      var i :| 0 <= i < |a + b| && Carries((a + b)[i], tag);
      assert if i < |a| then Carries(a[i], tag) else Carries(b[i - |a|], tag);
    }
    if Covers(a, tag) {
      var i :| 0 <= i < |a| && Carries(a[i], tag);
      assert (a + b)[i] == a[i];
    }
    if Covers(b, tag) {
      var i :| 0 <= i < |b| && Carries(b[i], tag);
      assert (a + b)[|a| + i] == b[i];
    }
  }

  /** Of one item a posting list has its value, if the primary tag or the list names the tag. */
  lemma PostingsOfOne<T>(item: Tagged<T>, tag: string)
    ensures Postings([item], tag) ==
            if tag in item.tags || (tag == item.primaryTag && tag != "") then [item.value] else []
  {
    assert [item][..0] == [];
  }

  /** Posting lists keep item order and multiplicity: of two parts, one list after the other. */
  lemma {:induction false} PostingsConcat<T>(a: seq<Tagged<T>>, b: seq<Tagged<T>>, tag: string)
    ensures Postings(a + b, tag) == Postings(a, tag) + Postings(b, tag)
  {
    if b == [] {
      assert a + b == a;
    } else {
      var n := |b| - 1;
      assert (a + b)[..|a| + n] == a + b[..n] && (a + b)[|a| + n] == b[n];
      PostingsConcat(a, b[..n], tag);
    }
  }

  /** The inverted index: for each cover tag that occurs, its posting list. */
  ghost predicate IsIndex<T>(index: map<string, seq<T>>, items: seq<Tagged<T>>, cover: set<string>) {
    forall t :: (t in index <==> t in cover && Postings(items, t) != []) && (t in index ==> index[t] == Postings(items, t))
  }

  method InvertedIndex<T>(items: seq<Tagged<T>>, cover: set<string>) returns (index: map<string, seq<T>>)
    ensures IsIndex(index, items, cover)
  {
    index := map[];
    for i := 0 to |items|
      invariant IsIndex(index, items[..i], cover)
    {
      index := PostItem(index, items[i], TagsOf(items[i]) * cover);
      assert items[..i + 1][..i] == items[..i] && items[..i + 1][i] == items[i];
    }
    assert items[..|items|] == items;
  }

  /** Appends an item's value to the posting list of each of the given tags. */
  method PostItem<T>(before: map<string, seq<T>>, item: Tagged<T>, tags: set<string>) returns (index: map<string, seq<T>>)
    ensures forall t :: t in index <==> t in before || t in tags
    ensures forall t :: t in index ==> index[t] == (if t in before then before[t] else []) + (if t in tags then [item.value] else [])
  {
    index := before;
    var todo := tags;
    while todo != {}
      invariant todo <= tags
      invariant forall t :: t in index <==> t in before || (t in tags && t !in todo)
      invariant forall t :: t in index ==>
        index[t] == (if t in before then before[t] else []) + (if t in tags && t !in todo then [item.value] else [])
      decreases todo
    {
      var tag :| tag in todo;
      index := index[tag := (if tag in index then index[tag] else []) + [item.value]];
      todo := todo - {tag};
    }
  }

  // ---------------------------------------------------------------------------------------
  // The run
  // ---------------------------------------------------------------------------------------

  function TurnsTagged(rows: seq<CanonicalRow>): seq<Tagged<int>> {
    if rows == [] then [] else [Tagged(rows[0].turnNumber, rows[0].primaryTag, rows[0].tags)] + TurnsTagged(rows[1..])
  }

  /** Rows without a canonical id do not contribute one. */
  function IdsTagged(rows: seq<CanonicalRow>): seq<Tagged<string>> {
    if rows == [] then []
    else (if rows[0].canonicalTurnId == "" then []
          else [Tagged(rows[0].canonicalTurnId, rows[0].primaryTag, rows[0].tags)]) + IdsTagged(rows[1..])
  }

  /** Of one row a tag's lists have its turn number, and its canonical id if it has one. */
  lemma RowPostingsOfOne(row: CanonicalRow, tag: string)
    ensures var named := tag in row.tags || (tag == row.primaryTag && tag != "");
            && Postings(TurnsTagged([row]), tag) == (if named then [row.turnNumber] else [])
            && Postings(IdsTagged([row]), tag) == (if named && row.canonicalTurnId != "" then [row.canonicalTurnId] else [])
  {
    var turn := Tagged(row.turnNumber, row.primaryTag, row.tags);
    var id := Tagged(row.canonicalTurnId, row.primaryTag, row.tags);
    assert TurnsTagged([row]) == [turn];
    assert IdsTagged([row]) == if row.canonicalTurnId == "" then [] else [id];
    PostingsOfOne(turn, tag);
    PostingsOfOne(id, tag);
  }

  lemma {:induction false} TurnsTaggedConcat(a: seq<CanonicalRow>, b: seq<CanonicalRow>)
    ensures TurnsTagged(a + b) == TurnsTagged(a) + TurnsTagged(b)
  {
    if a == [] {
      assert a + b == b;
    } else {
      assert (a + b)[0] == a[0] && (a + b)[1..] == a[1..] + b;
      TurnsTaggedConcat(a[1..], b);
    }
  }

  lemma {:induction false} IdsTaggedConcat(a: seq<CanonicalRow>, b: seq<CanonicalRow>)
    ensures IdsTagged(a + b) == IdsTagged(a) + IdsTagged(b)
  {
    if a == [] {
      assert a + b == b;
    } else {
      assert (a + b)[0] == a[0] && (a + b)[1..] == a[1..] + b;
      IdsTaggedConcat(a[1..], b);
    }
  }

  /** And of more rows, one after the other. */
  lemma RowPostingsConcat(a: seq<CanonicalRow>, b: seq<CanonicalRow>, tag: string)
    ensures Postings(TurnsTagged(a + b), tag) == Postings(TurnsTagged(a), tag) + Postings(TurnsTagged(b), tag)
    ensures Postings(IdsTagged(a + b), tag) == Postings(IdsTagged(a), tag) + Postings(IdsTagged(b), tag)
  {
    TurnsTaggedConcat(a, b);
    IdsTaggedConcat(a, b);
    PostingsConcat(TurnsTagged(a), TurnsTagged(b), tag);
    PostingsConcat(IdsTagged(a), IdsTagged(b), tag);
  }

  /** The least bound of 0 and all turn numbers. */
  ghost predicate IsMaxTurn(rows: seq<CanonicalRow>, maxTurn: int) {
    && maxTurn >= 0 && (forall row :: row in rows ==> row.turnNumber <= maxTurn)
    && (maxTurn == 0 || exists row :: row in rows && row.turnNumber == maxTurn)
  }

  function Where(tags: seq<string>, keep: set<string>): (kept: seq<string>)
    ensures forall t :: t in kept <==> t in tags && t in keep
  {
    if tags == [] then [] else (if tags[0] in keep then [tags[0]] else []) + Where(tags[1..], keep)
  }

  /** The tags a run asks the compactor for: all cover tags when forced, else those without a summary. */
  ghost predicate Wanted(segments: seq<Segment>, summaries: Summaries, forceRebuild: bool, tag: string) {
    Covers(segments, tag) && (forceRebuild || tag !in summaries)
  }

  /** A request made for exactly the wanted tags, with their posting lists. */
  ghost predicate IsRequest(request: Request, segments: seq<Segment>, rows: seq<CanonicalRow>, summaries: Summaries, forceRebuild: bool) {
    var cover := set t | t in request.coverTags;
    && (forall t :: t in request.coverTags <==> Wanted(segments, summaries, forceRebuild, t))
    && Ascending(request.coverTags)
    && IsIndex(request.tagToSummaries, segments, cover)
    && IsIndex(request.tagToTurns, TurnsTagged(rows), cover)
    && IsIndex(request.tagToCanonicalTurnIds, IdsTagged(rows), cover)
    && request.existing == map[]
    && IsMaxTurn(rows, request.maxTurn)
    && (forall t :: t in request.coverTags ==> t in request.tagToSummaries)
  }

  /** The compactor's side of the bargain: it answers only for tags it was asked about. */
  ghost predicate AnswersOnlyRequested(compact: Compactor) {
    forall request: Request :: forall ts :: ts in compact(request) ==> ts.tag in request.coverTags
  }

  /** It may leave tags out, when a summary cannot be made; complete means it did not. */
  ghost predicate AnswersAll(answers: seq<TagSummary>, request: Request) {
    forall t :: t in request.coverTags ==> exists ts :: ts in answers && ts.tag == t
  }

  function Saved(summaries: Summaries, answers: seq<TagSummary>): Summaries
    decreases |answers|
  {
    if answers == [] then summaries else Saved(summaries[answers[0].tag := answers[0]], answers[1..])
  }

  lemma {:induction false} SavedContents(summaries: Summaries, answers: seq<TagSummary>)
    ensures forall t :: t in Saved(summaries, answers) <==> t in summaries || exists ts :: ts in answers && ts.tag == t
    ensures forall t :: t in summaries && (forall ts :: ts in answers ==> ts.tag != t) ==>
              t in Saved(summaries, answers) && Saved(summaries, answers)[t] == summaries[t]
    decreases |answers|
  {
    if answers != [] {
      assert answers == [answers[0]] + answers[1..];
      SavedContents(summaries[answers[0].tag := answers[0]], answers[1..]);
    }
  }

  /** For each tag the last answer is stored, over an older summary as well. */
  lemma {:induction false} SavedIsLatest(summaries: Summaries, answers: seq<TagSummary>, k: nat)
    requires k < |answers| && forall j :: k < j < |answers| ==> answers[j].tag != answers[k].tag
    ensures answers[k].tag in Saved(summaries, answers) && Saved(summaries, answers)[answers[k].tag] == answers[k]
    decreases |answers|
  {
    var next := summaries[answers[0].tag := answers[0]];
    if k == 0 {
      SavedContents(next, answers[1..]);
    } else {
      SavedIsLatest(next, answers[1..], k - 1);
    }
  }

  lemma {:induction false} CoveredHasPostings(segments: seq<Segment>, tag: string)
    ensures Postings(segments, tag) != [] <==> exists i :: 0 <= i < |segments| && Carries(segments[i], tag)
  {
    if segments != [] {
      var n := |segments| - 1;
      CoveredHasPostings(segments[..n], tag);
      assert segments == segments[..n] + [segments[n]];
    }
  }

  /** The stored summaries of one conversation. */
  class SummaryStore {
    var summaries: Summaries
    var writes: nat

    constructor ()
      ensures summaries == map[] && writes == 0
    {
      summaries, writes := map[], 0;
    }

    method SaveTagSummary(ts: TagSummary)
      modifies this
      ensures summaries == old(summaries)[ts.tag := ts] && writes == old(writes) + 1
    {
      summaries := summaries[ts.tag := ts];
      writes := writes + 1;
    }

    /** Saves the compactor's answers, one by one. */
    method SaveAll(answers: seq<TagSummary>) returns (count: nat)
      modifies this
      ensures summaries == Saved(old(summaries), answers)
      ensures count == |answers| && writes == old(writes) + |answers|
    {
      count := 0;
      assert answers[0..] == answers;
      for i := 0 to |answers|
        invariant count == i && writes == old(writes) + i
        invariant Saved(old(summaries), answers) == Saved(summaries, answers[i..])
      {
        assert answers[i..][0] == answers[i] && answers[i..][1..] == answers[i + 1..];
        SaveTagSummary(answers[i]);
        count := count + 1;
      }
      assert answers[|answers|..] == [];
    }

    /** The cover tags in order; unforced, only those without a summary. */
    method ChooseTags(segments: seq<Segment>, forceRebuild: bool) returns (coverTags: seq<string>)
      ensures Ascending(coverTags)
      ensures forall t :: t in coverTags <==> Wanted(segments, summaries, forceRebuild, t)
    {
      var coverSet := DeriveCoverTags(segments);
      coverTags := Sorted(coverSet);
      if !forceRebuild {
        var missing := set t | t in coverSet && t !in summaries;
        WhereIsAscending(coverTags, missing);
        coverTags := Where(coverTags, missing);
      }
    }

    /** Drops tags without segments from the list; of wanted tags there are none to drop. */
    static method Prune(chosen: seq<string>, tagToSummaries: map<string, seq<string>>) returns (coverTags: seq<string>)
      requires Ascending(chosen) && forall t :: t in chosen ==> t in tagToSummaries
      ensures coverTags == chosen
    {
      coverTags := Where(chosen, tagToSummaries.Keys);
      WhereIsAscending(chosen, tagToSummaries.Keys);
      AscendingIsUnique(coverTags, chosen);
    }

    /** Everything the compactor is given for the wanted tags. */
    method PrepareRequest(segments: seq<Segment>, rows: seq<CanonicalRow>, forceRebuild: bool) returns (request: Request)
      ensures IsRequest(request, segments, rows, summaries, forceRebuild)
    {
      var coverTags := ChooseTags(segments, forceRebuild);
      var wanted := set t | t in coverTags;
      var tagToSummaries := InvertedIndex(segments, wanted);
      forall t | t in coverTags ensures t in tagToSummaries {
        PruningRemovesNothing(segments, summaries, forceRebuild, t);
      }
      coverTags := Prune(coverTags, tagToSummaries);
      var tagToTurns := InvertedIndex(TurnsTagged(rows), wanted);
      var tagToIds := InvertedIndex(IdsTagged(rows), wanted);
      var maxTurn := HighestTurn(rows);
      var existing := map t | t in wanted && !forceRebuild && t in summaries :: summaries[t];
      assert existing == map[];
      request := Request(coverTags, tagToSummaries, tagToTurns, tagToIds, existing, maxTurn);
    }

    /** The highest turn number of any row, but at least 0. */
    static method HighestTurn(rows: seq<CanonicalRow>) returns (maxTurn: int)
      ensures IsMaxTurn(rows, maxTurn)
    {
      maxTurn := 0;
      for i := 0 to |rows|
        invariant IsMaxTurn(rows[..i], maxTurn)
      {
        assert rows[..i + 1] == rows[..i] + [rows[i]];
        assert rows[i] in rows[..i + 1];
        if rows[i].turnNumber > maxTurn {
          maxTurn := rows[i].turnNumber;
        }
      }
      assert rows[..|rows|] == rows;
    }

    /**
     * One backfill run. The compactor is asked once, for exactly the wanted tags, unless there are
     * none; its answers are saved. Unforced, and answered only for tags it asked about, it changes no
     * existing summary; answered for all of them, it leaves every cover tag with a summary.
     */
    method BackfillTagSummaries(segments: seq<Segment>, rows: seq<CanonicalRow>, forceRebuild: bool, compact: Compactor) returns (count: nat, ghost request: Request)
      modifies this
      ensures IsRequest(request, segments, rows, old(summaries), forceRebuild)
      ensures request.coverTags == [] ==> summaries == old(summaries) && count == 0
      ensures request.coverTags != [] ==> summaries == Saved(old(summaries), compact(request)) && count == |compact(request)|
      ensures writes == old(writes) + count
      ensures AnswersOnlyRequested(compact) && !forceRebuild ==>
        forall t :: t in old(summaries) ==> t in summaries && summaries[t] == old(summaries)[t]
      ensures AnswersAll(compact(request), request) ==> forall t :: Covers(segments, t) ==> t in summaries
    {
      var asked := PrepareRequest(segments, rows, forceRebuild);
      request := asked;
      if asked.coverTags == [] {
        forall t | Covers(segments, t) ensures t in summaries {
          assert !Wanted(segments, summaries, forceRebuild, t);
        }
        return 0, request;
      }
      var answers := compact(asked);
      SavedContents(summaries, answers);
      forall t | Covers(segments, t) ensures t in summaries || t in asked.coverTags {
        assert Wanted(segments, summaries, forceRebuild, t) <==> t in asked.coverTags;
      }
      count := SaveAll(answers);
    }
  }

  lemma {:induction false} WhereIsAscending(tags: seq<string>, keep: set<string>)
    requires Ascending(tags)
    ensures Ascending(Where(tags, keep))
  {
    if tags != [] {
      var rest := tags[1..];
      WhereIsAscending(rest, keep);
      forall t | t in Where(rest, keep) ensures Below(tags[0], t) {
        var j :| 0 <= j < |rest| && rest[j] == t;
        assert tags[j + 1] == t;
      }
    }
  }

  /** Pruning is idle: every wanted tag has a segment to be summarised from. */
  lemma PruningRemovesNothing(segments: seq<Segment>, summaries: Summaries, forceRebuild: bool, tag: string)
    requires Wanted(segments, summaries, forceRebuild, tag)
    ensures Postings(segments, tag) != []
  {
    CoveredHasPostings(segments, tag);
  }

  /**
   * When a repeated run rests: an unforced run over unchanged segments asks for nothing exactly
   * when every cover tag has a summary, which a run answered in full has brought about.
   */
  lemma RerunIsIdleIff(request: Request, segments: seq<Segment>, rows: seq<CanonicalRow>, summaries: Summaries)
    requires IsRequest(request, segments, rows, summaries, false)
    ensures request.coverTags == [] <==> forall t :: Covers(segments, t) ==> t in summaries
  {
    if request.coverTags == [] {
      forall t | Covers(segments, t) ensures t in summaries {
        assert Wanted(segments, summaries, false, t) ==> t in request.coverTags;
      }
    } else {
      var t := request.coverTags[0];
      assert t in request.coverTags;
      assert Wanted(segments, summaries, false, t);
    }
  }

  /** After a run, forced or not, that was answered in full, an unforced run asks for nothing. */
  lemma CompleteRunThenIdle(first: Request, again: Request, segments: seq<Segment>, rows: seq<CanonicalRow>,
                            before: Summaries, forceFirst: bool, answers: seq<TagSummary>)
    requires IsRequest(first, segments, rows, before, forceFirst) && AnswersAll(answers, first)
    requires IsRequest(again, segments, rows, Saved(before, answers), false)
    ensures again.coverTags == []
  {
    SavedContents(before, answers);
    RerunIsIdleIff(again, segments, rows, Saved(before, answers));
    forall t | Covers(segments, t) ensures t in Saved(before, answers) {
      assert t in before || Wanted(segments, before, forceFirst, t);
      assert Wanted(segments, before, forceFirst, t) ==> t in first.coverTags;
    }
  }
}
