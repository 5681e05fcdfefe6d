/**
 * Canonical turn identity: the whitespace normalisation of turn texts, the framing of the texts
 * fed to the turn hash, and the index of window hashes used to find overlaps.
 */
module TurnIdentity {

  // ---------------------------------------------------------------------------------------
  // Whitespace normalisation
  // ---------------------------------------------------------------------------------------

  predicate InRange(c: char, low: int, high: int) {
    low <= c as int <= high
  }

  /** The white space of Unicode strings. */
  predicate IsSpace(c: char) {
    || InRange(c, 0x09, 0x0D) || InRange(c, 0x1C, 0x20) || c as int == 0x85 || c as int == 0xA0
    || c as int == 0x1680 || InRange(c, 0x2000, 0x200A) || c as int == 0x2028 || c as int == 0x2029
    || c as int == 0x202F || c as int == 0x205F || c as int == 0x3000
  }

  /** The characters at which a text is split into lines, once carriage returns are gone. */
  predicate IsLineBreak(c: char) {
    InRange(c, 0x0A, 0x0C) || InRange(c, 0x1C, 0x1E) || c as int == 0x85 || c as int == 0x2028 || c as int == 0x2029
  }

  function ReplaceCrLf(text: string): string {
    if |text| < 2 then text
    else if text[0] == '\r' && text[1] == '\n' then ['\n'] + ReplaceCrLf(text[2..])
    else [text[0]] + ReplaceCrLf(text[1..])
  }

  function ReplaceCr(text: string): string {
    if text == [] then [] else [if text[0] == '\r' then '\n' else text[0]] + ReplaceCr(text[1..])
  }

  /** The lines of a text, `line` being the one under way; a final break opens no further line. */
  function LinesFrom(text: string, line: string): seq<string> {
    if text == [] then if line == [] then [] else [line]
    else if IsLineBreak(text[0]) then [line] + LinesFrom(text[1..], [])
    else LinesFrom(text[1..], line + [text[0]])
  }

  function StripLeft(text: string): string {
    if text != [] && IsSpace(text[0]) then StripLeft(text[1..]) else text
  }

  function StripRight(text: string): string {
    if text != [] && IsSpace(text[|text| - 1]) then StripRight(text[..|text| - 1]) else text
  }

  function Strip(text: string): string {
    StripRight(StripLeft(text))
  }

  function StripLines(lines: seq<string>): seq<string> {
    if lines == [] then [] else [Strip(lines[0])] + StripLines(lines[1..])
  }

  function Join(parts: seq<string>, separator: string): string {
    if parts == [] then []
    else if |parts| == 1 then parts[0]
    else parts[0] + separator + Join(parts[1..], separator)
  }

  /** Every run of white space becomes one space. */
  function Collapse(text: string): string
    decreases |text|
  {
    if text == [] then []
    else if IsSpace(text[0]) then
      StripLeftShortens(text[1..]);
      [' '] + Collapse(StripLeft(text[1..]))
    else [text[0]] + Collapse(text[1..])
  }

  lemma StripLeftShortens(text: string)
    ensures |StripLeft(text)| <= |text|
  {
  }

  /** The normalisation of a text in which the session and media markers are already substituted. */
  function NormalizeWhitespace(text: string): string {
    var unix := ReplaceCr(ReplaceCrLf(text));
    var stripped := Join(StripLines(LinesFrom(unix, [])), "\n");
    Strip(Collapse(stripped))
  }

  /** The words of a text: its maximal runs without white space, `word` being the one under way. */
  function WordsFrom(text: string, word: string): seq<string> {
    if text == [] then if word == [] then [] else [word]
    else if IsSpace(text[0]) then (if word == [] then [] else [word]) + WordsFrom(text[1..], [])
    else WordsFrom(text[1..], word + [text[0]])
  }

  function Words(text: string): seq<string> {
    WordsFrom(text, [])
  }

  // ---- Each stage keeps the words ---------------------------------------------------------

  lemma {:induction false} CrLfKeepsWords(text: string, word: string)
    ensures WordsFrom(ReplaceCrLf(text), word) == WordsFrom(text, word)
  {
    if |text| >= 2 {
      if text[0] == '\r' && text[1] == '\n' {
        CrLfKeepsWords(text[2..], []);
        assert text[1..][1..] == text[2..];
        assert text[1..][0] == '\n';
        var rest := ReplaceCrLf(text[2..]);
        assert (['\n'] + rest)[1..] == rest;
      } else {
        var rest := ReplaceCrLf(text[1..]);
        assert ([text[0]] + rest)[1..] == rest;
        CrLfKeepsWords(text[1..], if IsSpace(text[0]) then [] else word + [text[0]]);
      }
    }
  }

  lemma {:induction false} CrKeepsWords(text: string, word: string)
    ensures WordsFrom(ReplaceCr(text), word) == WordsFrom(text, word)
  {
    if text != [] {
      CrKeepsWords(text[1..], if IsSpace(text[0]) then [] else word + [text[0]]);
    }
  }

  /** A break between two texts separates their words. */
  lemma {:induction false} WordsAcrossSpace(a: string, space: char, b: string, word: string)
    requires IsSpace(space)
    ensures WordsFrom(a + [space] + b, word) == WordsFrom(a, word) + Words(b)
  {
    var whole := a + [space] + b;
    if a == [] {
      assert whole[0] == space && whole[1..] == b;
    } else {
      assert whole[0] == a[0] && whole[1..] == a[1..] + [space] + b;
      WordsAcrossSpace(a[1..], space, b, if IsSpace(a[0]) then [] else word + [a[0]]);
      if IsSpace(a[0]) {
        var head := if word == [] then [] else [word];
        assert head + (Words(a[1..]) + Words(b)) == head + Words(a[1..]) + Words(b);
      }
    }
  }

  lemma {:induction false} StripLeftKeepsWords(text: string)
    ensures Words(StripLeft(text)) == Words(text)
  {
    if text != [] && IsSpace(text[0]) {
      StripLeftKeepsWords(text[1..]);
    }
  }

  lemma {:induction false} StripRightKeepsWords(text: string)
    ensures Words(StripRight(text)) == Words(text)
  {
    if text != [] && IsSpace(text[|text| - 1]) {
      var front, last := text[..|text| - 1], text[|text| - 1];
      StripRightKeepsWords(front);
      WordsAcrossSpace(front, last, [], []);
      assert text == front + [last] + [];
    }
  }

  lemma StripKeepsWords(text: string)
    ensures Words(Strip(text)) == Words(text)
  {
    StripLeftKeepsWords(text);
    StripRightKeepsWords(StripLeft(text));
  }

  function WordsOfLines(lines: seq<string>): seq<string> {
    if lines == [] then [] else Words(lines[0]) + WordsOfLines(lines[1..])
  }

  lemma {:induction false} JoinedLinesKeepWords(lines: seq<string>)
    ensures Words(Join(lines, "\n")) == WordsOfLines(lines)
  {
    if |lines| == 1 {
      assert lines[1..] == [];
    } else if lines != [] {
      JoinedLinesKeepWords(lines[1..]);
      WordsAcrossSpace(lines[0], '\n', Join(lines[1..], "\n"), []);
    }
  }

  lemma {:induction false} StripLinesKeepsWords(lines: seq<string>)
    ensures WordsOfLines(StripLines(lines)) == WordsOfLines(lines)
  {
    if lines != [] {
      StripKeepsWords(lines[0]);
      StripLinesKeepsWords(lines[1..]);
    }
  }

  lemma {:induction false} SplittingKeepsWords(text: string, line: string)
    ensures WordsOfLines(LinesFrom(text, line)) == Words(line + text)
  {
    if text == [] {
      assert line + text == line;
      if line != [] {
        assert [line][1..] == [];
      }
    } else if IsLineBreak(text[0]) {
      SplittingKeepsWords(text[1..], []);
      assert [] + text[1..] == text[1..];
      WordsAcrossSpace(line, text[0], text[1..], []);
      assert line + text == line + [text[0]] + text[1..];
    } else {
      SplittingKeepsWords(text[1..], line + [text[0]]);
      assert line + text == line + [text[0]] + text[1..];
    }
  }

  // ---- The last two stages spell out the words --------------------------------------------

  ghost predicate IsWord(word: string) {
    word != [] && forall c :: c in word ==> !IsSpace(c)
  }

  lemma StripLeftStops(text: string)
    ensures StripLeft(text) == [] || !IsSpace(StripLeft(text)[0])
  {
  }

  lemma StripRightBehindWord(a: string, b: string)
    requires b != [] && !IsSpace(b[0])
    ensures StripRight(a + b) == a + StripRight(b)
    ensures StripRight(b) != [] && StripRight(b)[0] == b[0]
  {
    if IsSpace(b[|b| - 1]) {
      var front := b[..|b| - 1];
      assert (a + b)[..|a + b| - 1] == a + front;
      StripRightBehindWord(a, front);
    }
  }

  lemma CollapseInWord(text: string, word: string)
    requires text != [] && !IsSpace(text[0])
    ensures word + Collapse(text) == (word + [text[0]]) + Collapse(text[1..])
    ensures WordsFrom(text, word) == WordsFrom(text[1..], word + [text[0]])
  {}

  /** With a word under way, collapsing and stripping the end spells the words with single spaces. */
  lemma {:induction false} CollapseSpellsWords(text: string, word: string)
    requires IsWord(word)
    ensures StripRight(word + Collapse(text)) == Join(WordsFrom(text, word), " ")
    decreases |text|
  {
    if text == [] {
      assert word + Collapse(text) == word;
    } else if IsSpace(text[0]) {
      var rest := StripLeft(text[1..]);
      StripLeftShortens(text[1..]);
      StripLeftStops(text[1..]);
      if rest != [] {
        CollapseSpellsWords(rest[1..], [rest[0]]);
      }
      SpaceBetweenWords(word, rest);
      CollapseAtSpace(text, word);
    } else {
      CollapseInWord(text, word);
      CollapseSpellsWords(text[1..], word + [text[0]]);
    }
  }

  lemma CollapseAtSpace(text: string, word: string)
    requires text != [] && IsSpace(text[0])
    ensures var rest := StripLeft(text[1..]);
            && word + Collapse(text) == word + [' '] + Collapse(rest)
            && WordsFrom(text, word) == (if word == [] then [] else [word]) + Words(rest)
  {
    StripLeftKeepsWords(text[1..]);
  }

  lemma SpaceBetweenWords(word: string, rest: string)
    requires IsWord(word)
    requires rest != [] ==> !IsSpace(rest[0]) && StripRight([rest[0]] + Collapse(rest[1..])) == Join(WordsFrom(rest[1..], [rest[0]]), " ")
    ensures StripRight(word + [' '] + Collapse(rest)) == Join([word] + Words(rest), " ")
  {
    if rest == [] {
      assert (word + [' '] + [])[..|word|] == word;
      assert [word] + [] == [word];
    } else {
      var ws := Words(rest);
      assert [] + [rest[0]] == [rest[0]];
      WordsNonEmpty(rest[1..], [rest[0]]);
      StripRightBehindWord(word + [' '], Collapse(rest));
      assert ([word] + ws)[1..] == ws;
    }
  }

  lemma {:induction false} WordsNonEmpty(text: string, word: string)
    requires word != []
    ensures WordsFrom(text, word) != []
  {
    if text != [] && !IsSpace(text[0]) {
      WordsNonEmpty(text[1..], word + [text[0]]);
    }
  }

  lemma CollapsedAndStrippedSpellsWords(text: string)
    ensures Strip(Collapse(text)) == Join(Words(text), " ")
  {
    if text != [] {
      if IsSpace(text[0]) {
        var rest := StripLeft(text[1..]);
        StripLeftStops(text[1..]);
        CollapseAtSpace(text, []);
        assert [] + Words(rest) == Words(rest);
        assert [] + Collapse(text) == Collapse(text) && [] + [' '] == [' '];
        if rest != [] {
          SpellFromWord(rest);
        }
      } else {
        SpellFromWord(text);
      }
    }
  }

  lemma SpellFromWord(text: string)
    requires text != [] && !IsSpace(text[0])
    ensures Strip(Collapse(text)) == Join(Words(text), " ")
  {
    CollapseSpellsWords(text[1..], [text[0]]);
    assert [] + [text[0]] == [text[0]];
    assert Collapse(text)[0] == text[0];
    assert StripLeft(Collapse(text)) == Collapse(text);
  }

  /** What normalisation comes to: the words of the text, joined by single spaces. */
  lemma NormalizedIsItsWords(text: string)
    ensures NormalizeWhitespace(text) == Join(Words(text), " ")
  {
    var unix := ReplaceCr(ReplaceCrLf(text));
    var lines := LinesFrom(unix, []);
    CrLfKeepsWords(text, []);
    CrKeepsWords(ReplaceCrLf(text), []);
    SplittingKeepsWords(unix, []);
    assert [] + unix == unix;
    StripLinesKeepsWords(lines);
    JoinedLinesKeepWords(StripLines(lines));
    CollapsedAndStrippedSpellsWords(Join(StripLines(lines), "\n"));
  }

  lemma {:induction false} WordsAreWords(text: string, word: string)
    requires word == [] || IsWord(word)
    ensures forall w :: w in WordsFrom(text, word) ==> IsWord(w)
  {
    if text != [] {
      WordsAreWords(text[1..], if IsSpace(text[0]) then [] else word + [text[0]]);
    }
  }

  /** The only white space in words joined by single spaces is those spaces. */
  lemma {:induction false} JoinedWordsHaveOnlySpaces(words: seq<string>)
    requires forall w :: w in words ==> IsWord(w)
    ensures forall c :: c in Join(words, " ") && IsSpace(c) ==> c == ' '
  {
    if words != [] {
      assert words[0] in words;
      JoinedWordsHaveOnlySpaces(words[1..]);
    }
  }

  lemma {:induction false} WordsOfWord(word: string, before: string)
    requires forall c :: c in word ==> !IsSpace(c)
    ensures WordsFrom(word, before) == if before + word == [] then [] else [before + word]
  {
    if word == [] {
      assert before + word == before;
    } else {
      assert word[0] in word;
      WordsOfWord(word[1..], before + [word[0]]);
      assert before + word == before + [word[0]] + word[1..];
    }
  }

  lemma {:induction false} WordsOfJoined(words: seq<string>)
    requires forall w :: w in words ==> IsWord(w)
    ensures Words(Join(words, " ")) == words
  {
    if words != [] {
      assert words[0] in words;
      WordsOfWord(words[0], []);
      assert [] + words[0] == words[0];
      WordsOfJoined(words[1..]);
      assert words == [words[0]] + words[1..];
      if |words| > 1 {
        WordsAcrossSpace(words[0], ' ', Join(words[1..], " "), []);
      }
    }
  }

  /** Normal texts have no line break, and normalising one again changes nothing. */
  lemma NormalizedIsNormal(text: string)
    ensures forall c :: c in NormalizeWhitespace(text) && IsSpace(c) ==> c == ' '
    ensures '\n' !in NormalizeWhitespace(text)
    ensures NormalizeWhitespace(NormalizeWhitespace(text)) == NormalizeWhitespace(text)
  {
    NormalizedIsItsWords(text);
    WordsAreWords(text, []);
    JoinedWordsHaveOnlySpaces(Words(text));
    WordsOfJoined(Words(text));
    NormalizedIsItsWords(NormalizeWhitespace(text));
  }

  // ---------------------------------------------------------------------------------------
  // Framing the texts of a turn
  // ---------------------------------------------------------------------------------------

  /** What is hashed for a turn: a version byte, then both texts around a separator line. */
  datatype Payload = Payload(version: nat, body: string)

  const SEPARATOR := "\n---\n"

  function TurnPayload(user: string, assistant: string, version: nat): Payload {
    Payload(version, user + SEPARATOR + assistant)
  }

  /** The framing is injective as soon as the user texts have no line break. */
  lemma FramingIsInjective(u1: string, a1: string, v1: nat, u2: string, a2: string, v2: nat)
    requires '\n' !in u1 && '\n' !in u2
    requires TurnPayload(u1, a1, v1) == TurnPayload(u2, a2, v2)
    ensures u1 == u2 && a1 == a2 && v1 == v2
  {
    var rest := SEPARATOR[1..];
    assert u1 + SEPARATOR + a1 == u1 + ['\n'] + (rest + a1);
    assert u2 + SEPARATOR + a2 == u2 + ['\n'] + (rest + a2);
    FirstMarkSplits('\n', u1, rest + a1, u2, rest + a2);
    assert a1 == (rest + a1)[|rest|..] && a2 == (rest + a2)[|rest|..];
  }

  /** Two texts cut at their first mark are cut at the same place. */
  lemma FirstMarkSplits(mark: char, a: string, restA: string, b: string, restB: string)
    requires mark !in a && mark !in b
    requires a + [mark] + restA == b + [mark] + restB
    ensures a == b && restA == restB
  {
    var body := a + [mark] + restA;
    assert forall i :: 0 <= i < |a| ==> body[i] == a[i] && a[i] in a;
    assert forall i :: 0 <= i < |b| ==> body[i] == (b + [mark] + restB)[i] == b[i] && b[i] in b;
    assert body[|a|] == mark && body[|b|] == mark;
    assert |a| == |b|;
    assert a == body[..|a|] && b == body[..|b|];
    assert restA == body[|a| + 1..] && restB == body[|b| + 1..];
  }

  /** Turns hash the same, under a collision-free hash, exactly when their words are the same. */
  lemma HashesAgreeIff<D(!new)>(hash: Payload -> D, u1: string, a1: string, u2: string, a2: string, version: nat)
    requires CollisionFree(hash)
    ensures hash(TurnPayload(NormalizeWhitespace(u1), NormalizeWhitespace(a1), version))
            == hash(TurnPayload(NormalizeWhitespace(u2), NormalizeWhitespace(a2), version))
            <==> Words(u1) == Words(u2) && Words(a1) == Words(a2)
  {
    NormalizedIsItsWords(u1);
    NormalizedIsItsWords(a1);
    NormalizedIsItsWords(u2);
    NormalizedIsItsWords(a2);
    NormalizedIsNormal(u1);
    NormalizedIsNormal(u2);
    WordsAreWords(u1, []);
    WordsAreWords(a1, []);
    WordsAreWords(u2, []);
    WordsAreWords(a2, []);
    WordsOfJoined(Words(u1));
    WordsOfJoined(Words(a1));
    WordsOfJoined(Words(u2));
    WordsOfJoined(Words(a2));
    var p := TurnPayload(NormalizeWhitespace(u1), NormalizeWhitespace(a1), version);
    var q := TurnPayload(NormalizeWhitespace(u2), NormalizeWhitespace(a2), version);
    if hash(p) == hash(q) {
      assert p == q;
      FramingIsInjective(NormalizeWhitespace(u1), NormalizeWhitespace(a1), version, NormalizeWhitespace(u2), NormalizeWhitespace(a2), version);
    }
  }

  ghost predicate CollisionFree<D(!new)>(hash: Payload -> D) {
    forall p: Payload, q: Payload :: hash(p) == hash(q) ==> p == q
  }

  /** Without normalisation the framing is ambiguous: the separator may stand in either text. */
  lemma RawFramingIsAmbiguous(version: nat)
    ensures TurnPayload("a", "b\n---\nc", version) == TurnPayload("a\n---\nb", "c", version)
  {
    assert "a" + SEPARATOR + "b\n---\nc" == "a\n---\nb" + SEPARATOR + "c";
  }

  // ---------------------------------------------------------------------------------------
  // Window anchors
  // ---------------------------------------------------------------------------------------

  const HASH_VERSION: nat := 1
  const NUL: char := '\0'

  /** Each turn hash of a window, ended by a NUL. */
  function Framed(hashes: seq<string>): string {
    if hashes == [] then [] else hashes[0] + [NUL] + Framed(hashes[1..])
  }

  /** Hashes are framed one after the other, in order. */
  lemma {:induction false} FramedConcat(a: seq<string>, b: seq<string>)
    ensures Framed(a + b) == Framed(a) + Framed(b)
    ensures forall h: string :: Framed([h]) == h + [NUL]
  {
    forall h: string ensures Framed([h]) == h + [NUL] {
      assert [h][1..] == [];
    }
    if a == [] {
      assert a + b == b;
    } else {
      assert (a + b)[1..] == a[1..] + b;
      FramedConcat(a[1..], b);
    }
  }

  function Clamp(n: int, high: nat): nat {
    if n < 0 then 0 else if n > high then high else n
  }

  function WindowPayload(turnHashes: seq<string>, start: nat, size: nat): Payload
    requires start <= |turnHashes|
  {
    Payload(HASH_VERSION, Framed(turnHashes[start..Clamp(start + size, |turnHashes|)]))
  }

  ghost predicate NulFree(hashes: seq<string>) {
    forall i :: 0 <= i < |hashes| ==> NUL !in hashes[i]
  }

  /** NUL-terminated framing is injective on NUL-free hashes, for windows of any lengths. */
  lemma {:induction false} FramedIsInjective(a: seq<string>, b: seq<string>)
    requires NulFree(a) && NulFree(b) && Framed(a) == Framed(b)
    ensures a == b
  {
    assert a == [] <==> b == [];
    if a != [] {
      var x, y := a[0], b[0];
      FirstMarkSplits(NUL, x, Framed(a[1..]), y, Framed(b[1..]));
      FramedIsInjective(a[1..], b[1..]);
      assert a == [x] + a[1..] && b == [y] + b[1..];
    }
  }

  method ComputeAnchorHash<D>(hash: Payload -> D, turnHashes: seq<string>, start: nat, size: nat) returns (digest: D)
    requires start <= |turnHashes|
    ensures digest == hash(WindowPayload(turnHashes, start, size))
  {
    var window := turnHashes[start..Clamp(start + size, |turnHashes|)];
    var fed := "";
    assert window[0..] == window;
    for i := 0 to |window|
      invariant Framed(window) == fed + Framed(window[i..])
    {
      assert window[i..][0] == window[i] && window[i..][1..] == window[i + 1..];
      var rest := Framed(window[i + 1..]);
      assert fed + (window[i] + [NUL] + rest) == fed + window[i] + [NUL] + rest;
      fed := fed + window[i];
      fed := fed + [NUL];
    }
    assert window[|window|..] == [];
    assert fed + [] == fed;
    digest := hash(Payload(HASH_VERSION, fed));
  }

  ghost predicate Ascending(starts: seq<nat>) {
    forall i, j :: 0 <= i < j < |starts| ==> starts[i] < starts[j]
  }

  /** The starts of full windows; there are none for an empty window or too few rows. */
  predicate IsStart(turnHashes: seq<string>, windowSize: int, start: nat) {
    windowSize > 0 && start + windowSize <= |turnHashes|
  }

  /** A bucket lists, in increasing order, only starts below `bound` that hash to its key. */
  ghost predicate IsBucket<D>(hash: Payload -> D, turnHashes: seq<string>, windowSize: nat, key: D, bucket: seq<nat>, bound: nat) {
    && bucket != [] && Ascending(bucket)
    && forall start :: start in bucket ==>
         start < bound && start <= |turnHashes| && hash(WindowPayload(turnHashes, start, windowSize)) == key
  }

  /** The buckets list exactly the starts below `bound`, each under the hash of its window. */
  ghost predicate IndexesUpTo<D>(hash: Payload -> D, turnHashes: seq<string>, windowSize: nat, anchors: map<D, seq<nat>>, bound: nat)
    requires bound + windowSize <= |turnHashes| + 1
  {
    && (forall d :: d in anchors ==> IsBucket(hash, turnHashes, windowSize, d, anchors[d], bound))
    && (forall start: nat :: start < bound && start <= |turnHashes| ==>
          var d := hash(WindowPayload(turnHashes, start, windowSize)); d in anchors && start in anchors[d])
  }

  lemma ExtendedBucket(bucket: seq<nat>, start: nat)
    requires Ascending(bucket) && forall s :: s in bucket ==> s < start
    ensures Ascending(bucket + [start])
    ensures forall s :: s in bucket + [start] <==> s == start || s in bucket
  {
    forall i, j | 0 <= i < j < |bucket + [start]| ensures (bucket + [start])[i] < (bucket + [start])[j] {
      assert bucket[i] in bucket;
    }
  }

  method BuildAnchorIndex<D(==)>(hash: Payload -> D, turnHashes: seq<string>, windowSize: int) returns (anchors: map<D, seq<nat>>)
    ensures windowSize <= 0 || |turnHashes| < windowSize ==> anchors == map[]
    ensures 0 < windowSize <= |turnHashes| ==> IndexesUpTo(hash, turnHashes, windowSize, anchors, |turnHashes| - windowSize + 1)
  {
    anchors := map[];
    if windowSize <= 0 || |turnHashes| < windowSize {
      return;
    }
    for start := 0 to |turnHashes| - windowSize + 1
      invariant IndexesUpTo(hash, turnHashes, windowSize, anchors, start)
    {
      var digest := ComputeAnchorHash(hash, turnHashes, start, windowSize);
      var bucket := if digest in anchors then anchors[digest] else [];
      assert digest in anchors ==> IsBucket(hash, turnHashes, windowSize, digest, bucket, start);
      ExtendedBucket(bucket, start);
      bucket := bucket + [start];
      anchors := anchors[digest := bucket];
    }
  }

  /**
   * With a collision-free hash and NUL-free turn hashes, two starts share a bucket exactly when
   * their windows of turn hashes are equal.
   */
  lemma SameBucketIffSameWindow<D(!new)>(hash: Payload -> D, turnHashes: seq<string>, windowSize: nat,
                                         anchors: map<D, seq<nat>>, s: nat, t: nat)
    requires CollisionFree(hash) && NulFree(turnHashes)
    requires 0 < windowSize <= |turnHashes|
    requires IndexesUpTo(hash, turnHashes, windowSize, anchors, |turnHashes| - windowSize + 1)
    requires IsStart(turnHashes, windowSize, s) && IsStart(turnHashes, windowSize, t)
    ensures (exists d :: d in anchors && s in anchors[d] && t in anchors[d])
            <==> turnHashes[s..s + windowSize] == turnHashes[t..t + windowSize]
  {
    var p, q := WindowPayload(turnHashes, s, windowSize), WindowPayload(turnHashes, t, windowSize);
    if exists d :: d in anchors && s in anchors[d] && t in anchors[d] {
      assert hash(p) == hash(q);
      assert p == q;
      FramedIsInjective(turnHashes[s..s + windowSize], turnHashes[t..t + windowSize]);
    }
    if turnHashes[s..s + windowSize] == turnHashes[t..t + windowSize] {
      assert p == q;
      assert hash(p) in anchors && s in anchors[hash(p)] && t in anchors[hash(p)];
    }
  }

  /** A NUL inside a turn hash would merge different windows into one bucket. */
  lemma NulMergesWindows()
    ensures Framed(["a\0b", "c"]) == Framed(["a", "b\0c"])
  {
    assert ["a\0b", "c"][1..] == ["c"] && ["a", "b\0c"][1..] == ["b\0c"];
    assert ["c"][1..] == [] && ["b\0c"][1..] == [];
    assert "a\0b" + [NUL] + ("c" + [NUL] + []) == "a" + [NUL] + ("b\0c" + [NUL] + []);
  }
}
