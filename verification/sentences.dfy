/** The sentence endpoints: random sentences with an exclusion list, and
    sentences by category or by difficulty, each sampled without replacement
    from the fixed seed table. */
module Sentences {
  import opened Results
  import opened Seqs
  import opened Text
  import opened Sampling

  datatype Sentence = Sentence(
    id: int,
    kreyolText: string,
    englishTranslation: string,
    category: Option<string>,
    difficultyLevel: int,
    audioUrl: Option<string>)

  function Seed(id: int, kreyol: string, english: string, category: string, level: int, audio: string): Sentence {
    Sentence(id, kreyol, english, Some(category), level, Some(audio))
  }

  /** The seed table `MOCK_SENTENCES`. */
  const SeedSentences: seq<Sentence> := [
    Seed(1, "Bonjou, kijan ou ye?", "Hello, how are you?", "greetings", 1,
      "https://example.blob.core.windows.net/audio/1.mp3"),
    Seed(2, "Mwen byen, mèsi.", "I'm fine, thank you.", "greetings", 1,
      "https://example.blob.core.windows.net/audio/2.mp3"),
    Seed(3, "Kisa ou renmen manje?", "What do you like to eat?", "food", 2,
      "https://example.blob.core.windows.net/audio/3.mp3"),
    Seed(4, "M ap aprann pale kreyòl.", "I am learning to speak Creole.", "education", 2,
      "https://example.blob.core.windows.net/audio/4.mp3"),
    Seed(5, "Solèy la cho jodi a.", "The sun is hot today.", "weather", 1,
      "https://example.blob.core.windows.net/audio/5.mp3"),
    Seed(6, "Nou bezwen travay ansanm pou bati yon pi bon demen.",
      "We need to work together to build a better tomorrow.", "society", 4,
      "https://example.blob.core.windows.net/audio/6.mp3"),
    Seed(7, "Timoun yo ap jwe nan lakou a.", "The children are playing in the yard.", "family", 2,
      "https://example.blob.core.windows.net/audio/7.mp3"),
    Seed(8, "Pwogrè teknolojik la enpòtan pou devlopman peyi a.",
      "Technological progress is important for the country's development.", "technology", 5,
      "https://example.blob.core.windows.net/audio/8.mp3"),
    Seed(9, "Imilyasyon se lanfe.", "Humiliation is hell.", "proverb", 2,
      "https://example.blob.core.windows.net/audio/8.mp3"),
    Seed(10, "Gwo bounda pa vle di la sante.", "Big buttocks do not mean health.", "proverb", 2,
      "https://example.blob.core.windows.net/audio/8.mp3"),
    Seed(11, "Le mwen rive sou portay jendarm arete mwen",
      "When I arrive at the gate, the police officer arrested me.", "everyday", 2,
      "https://example.blob.core.windows.net/audio/8.mp3"),
    Seed(12, "Neg filo yo fe yon bel gala pou jen yo.",
      "The 12th graders threw a beautiful spectacle for the youth.", "everyday", 2,
      "https://example.blob.core.windows.net/audio/8.mp3"),
    Seed(13, "Papa w se papa w, papa m pa papa w.",
      "Your father is your father, my father is not your father.", "tongue-twister", 2,
      "https://example.blob.core.windows.net/audio/8.mp3")
  ]

  /** The seed table is numbered 1, 2, 3, ... in order, every sentence has a
      category and an audio URL, and every difficulty lies in 1..5. */
  lemma SeedTableShape()
    ensures |SeedSentences| == 13
    ensures forall i :: 0 <= i < |SeedSentences| ==> SeedSentences[i].id == i + 1
    ensures forall i :: 0 <= i < |SeedSentences| ==>
      SeedSentences[i].category.Some? && SeedSentences[i].audioUrl.Some? && 1 <= SeedSentences[i].difficultyLevel <= 5
    ensures Distinct(SeedSentences)
    ensures DistinctIds(SeedSentences)
  {
    assert forall i :: 0 <= i < |SeedSentences| ==> SeedSentences[i].id == i + 1;
  }

  // ---------------------------------------------------------------------------
  // excludeIds
  // ---------------------------------------------------------------------------

  /** `int(id.strip())` for one comma-separated segment. */
  function ParseSegment(segment: string): (r: Option<int>)
    ensures r.Some? <==> IsIntLiteral(Strip(segment))
  {
    ParseInt(Strip(segment))
  }

  /** `[parse(id) for id in segments]`, where one segment that does not parse
      fails the whole list. */
  function ParseSegments(segments: seq<string>, parse: string -> Option<int>): (r: Result<seq<int>>)
    ensures r.Failure? ==> r.error == InvalidExcludeIds
    ensures r.Success? ==> |r.value| == |segments|
    decreases |segments|
  {
    if |segments| == 0 then Success([])
    else
      match parse(segments[0])
      case None => Failure(InvalidExcludeIds)
      case Some(n) =>
        match ParseSegments(segments[1..], parse)
        case Failure(e) => Failure(e)
        case Success(rest) => Success([n] + rest)
  }

  /** A segment list is accepted exactly when every segment parses. */
  lemma {:induction false} ParseSegmentsAccepts(segments: seq<string>, parse: string -> Option<int>)
    ensures ParseSegments(segments, parse).Success? <==>
      forall k :: 0 <= k < |segments| ==> parse(segments[k]).Some?
    decreases |segments|
  {
    if |segments| > 0 {
      var tail := segments[1..];
      ParseSegmentsAccepts(tail, parse);
      assert forall k :: 1 <= k < |segments| ==> segments[k] == tail[k - 1];
    }
  }

  /** An accepted segment list yields, at each position, the value of that segment. */
  lemma {:induction false} ParseSegmentsValues(segments: seq<string>, parse: string -> Option<int>)
    requires ParseSegments(segments, parse).Success?
    ensures forall k :: 0 <= k < |segments| ==> Some(ParseSegments(segments, parse).value[k]) == parse(segments[k])
    decreases |segments|
  {
    if |segments| > 0 {
      var tail := segments[1..];
      ParseSegmentsValues(tail, parse);
      assert forall k :: 1 <= k < |segments| ==> segments[k] == tail[k - 1];
      assert ParseSegments(segments, parse).value == [parse(segments[0]).value] + ParseSegments(tail, parse).value;
    }
  }

  /** The `excludeIds` query parameter: absent or empty means nothing is excluded;
      otherwise every comma-separated segment must be an integer. */
  function ParseExcludeIds(excludeIds: Option<string>): (r: Result<seq<int>>)
    ensures excludeIds.None? || excludeIds == Some("") ==> r == Success([])
    ensures r.Failure? ==> r.error == InvalidExcludeIds
    ensures excludeIds.Some? && excludeIds.value != "" ==>
      (r.Success? <==> forall seg :: seg in Split(excludeIds.value, ',') ==> IsIntLiteral(Strip(seg)))
  {
    if excludeIds.None? || excludeIds.value == "" then Success([])
    else
      var segments := Split(excludeIds.value, ',');
      ParseSegmentsAccepts(segments, ParseSegment);
      ParseSegments(segments, ParseSegment)
  }

  /** The decimal spelling of each id. */
  function IdParts(ids: seq<int>): (parts: seq<string>)
    ensures |parts| == |ids|
    ensures forall k :: 0 <= k < |ids| ==> parts[k] == ShowInt(ids[k])
  {
    seq(|ids|, k requires 0 <= k < |ids| => ShowInt(ids[k]))
  }

  /** The way a client writes an id list: `",".join(str(i) for i in ids)`. */
  function FormatIds(ids: seq<int>): (s: string)
    requires |ids| >= 1
  {
    Join(IdParts(ids), ',')
  }

  /** A spelled-out integer is a segment that parses back to it. */
  lemma ShowIntSegment(n: int)
    ensures ParseSegment(ShowInt(n)) == Some(n)
  {
    StripUnchanged(ShowInt(n));
    ParseShowInt(n);
  }

  /** Each spelled-out id parses back to that id. */
  lemma IdPartsSegments(ids: seq<int>)
    ensures forall k :: 0 <= k < |ids| ==> ParseSegment(IdParts(ids)[k]) == Some(ids[k])
  {
    forall k | 0 <= k < |ids| ensures ParseSegment(IdParts(ids)[k]) == Some(ids[k]) {
      ShowIntSegment(ids[k]);
    }
  }

  /** When every segment parses, the list parses to exactly those values. */
  lemma ParseSegmentsAll(segments: seq<string>, parse: string -> Option<int>, values: seq<int>)
    requires |segments| == |values|
    requires forall k :: 0 <= k < |segments| ==> parse(segments[k]) == Some(values[k])
    ensures ParseSegments(segments, parse) == Success(values)
  {
    ParseSegmentsAccepts(segments, parse);
    ParseSegmentsValues(segments, parse);
    var r := ParseSegments(segments, parse).value;
    assert forall k :: 0 <= k < |segments| ==> r[k] == values[k];
    assert r == values;
  }

  /** Every non-empty id list a client formats is read back unchanged. */
  lemma ExcludeIdsRoundTrip(ids: seq<int>)
    requires |ids| >= 1
    ensures ParseExcludeIds(Some(FormatIds(ids))) == Success(ids)
  {
    var parts := IdParts(ids);
    assert forall p :: p in parts ==> ',' !in p;
    SplitJoin(parts, ',');
    assert |parts[0]| > 0;
    IdPartsSegments(ids);
    ParseSegmentsAll(parts, ParseSegment, ids);
  }

  /** An id with whitespace on either side is a segment that parses to that id. */
  lemma PaddedSegment(pre: string, n: int, post: string)
    requires forall i :: 0 <= i < |pre| ==> IsSpace(pre[i])
    requires forall i :: 0 <= i < |post| ==> IsSpace(post[i])
    ensures ParseSegment(pre + ShowInt(n) + post) == Some(n)
  {
    StripSurrounded(pre, ShowInt(n), post);
    ParseShowInt(n);
  }

  /** A segment holding any spelling of a number, signed or not, with leading
      zeros, between whitespace: `" 007 "` reads as 7 and `"+4"` as 4. */
  lemma SpelledSegment(pre: string, sign: string, z: nat, n: nat, post: string)
    requires forall i :: 0 <= i < |pre| ==> IsSpace(pre[i])
    requires forall i :: 0 <= i < |post| ==> IsSpace(post[i])
    requires sign == "" || sign == "+" || sign == "-"
    ensures ParseSegment(pre + (sign + (Zeros(z) + ShowNat(n))) + post) == Some(if sign == "-" then -(n as int) else n as int)
  {
    var core := sign + (Zeros(z) + ShowNat(n));
    assert IsDigit(core[|core| - 1]);
    assert core[0] == '+' || core[0] == '-' || IsDigit(core[0]);
    StripSurrounded(pre, core, post);
    ParseSpelled(sign, z, n);
  }

  /** Each id spelled out between its own leading and trailing whitespace. */
  function PaddedParts(ids: seq<int>, before: seq<string>, after: seq<string>): (parts: seq<string>)
    requires |before| == |ids| && |after| == |ids|
    ensures |parts| == |ids|
    ensures forall k :: 0 <= k < |ids| ==> parts[k] == before[k] + ShowInt(ids[k]) + after[k]
  {
    seq(|ids|, k requires 0 <= k < |ids| => before[k] + ShowInt(ids[k]) + after[k])
  }

  /** Whitespace around the ids is ignored: `"1, 2"` or `" 1 ,2\t"` excludes sentences 1 and 2. */
  lemma PaddedIdsRoundTrip(ids: seq<int>, before: seq<string>, after: seq<string>)
    requires |ids| >= 1 && |before| == |ids| && |after| == |ids|
    requires forall k, i :: 0 <= k < |ids| && 0 <= i < |before[k]| ==> IsSpace(before[k][i])
    requires forall k, i :: 0 <= k < |ids| && 0 <= i < |after[k]| ==> IsSpace(after[k][i])
    ensures ParseExcludeIds(Some(Join(PaddedParts(ids, before, after), ','))) == Success(ids)
  {
    var parts := PaddedParts(ids, before, after);
    forall k | 0 <= k < |ids|
      ensures ',' !in parts[k] && ParseSegment(parts[k]) == Some(ids[k])
    {
      assert !IsSpace(',');
      PaddedSegment(before[k], ids[k], after[k]);
    }
    SplitJoin(parts, ',');
    assert |parts[0]| > 0;
    ParseSegmentsAll(parts, ParseSegment, ids);
  }

  /** An empty segment, as in `"1,,2"` or a trailing comma, is rejected. */
  lemma EmptySegmentRejected(excludeIds: string)
    requires excludeIds != ""
    requires "" in Split(excludeIds, ',')
    ensures ParseExcludeIds(Some(excludeIds)) == Failure(InvalidExcludeIds)
  {
    assert !IsIntLiteral(Strip(""));
  }

  // ---------------------------------------------------------------------------
  // The three sentence queries
  // ---------------------------------------------------------------------------

  // The queries read the sentence table they are given; the service always
  // passes the seed table `SeedSentences`.

  function Excluding(ex: seq<int>): Sentence -> bool {
    (s: Sentence) => s.id !in ex
  }

  /** `GET /api/sentences/random`: the sentences whose id is not excluded, sampled
      without replacement, `min(count, available)` of them. */
  function RandomSentences(table: seq<Sentence>, count: int, excludeIds: Option<string>, draws: seq<nat>)
    : (r: Result<seq<Sentence>>)
    requires 1 <= count <= 50
    ensures r.Failure? <==> ParseExcludeIds(excludeIds).Failure?
    ensures r.Failure? ==> r.error == InvalidExcludeIds
    ensures r.Success? ==>
      var ex := ParseExcludeIds(excludeIds).value;
      && |r.value| == Min(count, |Filter(table, Excluding(ex))|)
      && (forall s :: s in r.value ==> s in table && s.id !in ex)
      && multiset(r.value) <= multiset(Filter(table, Excluding(ex)))
      && (Distinct(table) ==> Distinct(r.value))
  {
    match ParseExcludeIds(excludeIds)
    case Failure(e) => Failure(e)
    case Success(ex) => Success(SampleMatching(table, Excluding(ex), count, draws))
  }

  /** The ids occurring in a sequence of sentences. */
  function Ids(s: seq<Sentence>): (ids: set<int>)
    ensures forall x :: x in ids <==> exists i :: 0 <= i < |s| && s[i].id == x
    decreases |s|
  {
    if |s| == 0 then {} else {s[0].id} + Ids(s[1..])
  }

  predicate DistinctIds(s: seq<Sentence>) {
    forall i, j :: 0 <= i < j < |s| ==> s[i].id != s[j].id
  }

  lemma InsertIntersectSize(a: int, rest: set<int>, xs: set<int>)
    requires a !in rest
    ensures |({a} + rest) * xs| == (if a in xs then 1 else 0) + |rest * xs|
  {
    if a in xs {
      assert ({a} + rest) * xs == {a} + rest * xs;
    } else {
      assert ({a} + rest) * xs == rest * xs;
    }
  }

  /** Excluding ids removes exactly the sentences whose id is listed. */
  lemma {:induction false} ExcludedCount(s: seq<Sentence>, ex: seq<int>)
    requires DistinctIds(s)
    ensures |Filter(s, Excluding(ex))| == |s| - |Ids(s) * set x | x in ex|
    decreases |s|
  {
    if |s| > 0 {
      var t := s[1..];
      assert DistinctIds(t);
      ExcludedCount(t, ex);
      assert s[0].id !in Ids(t);
      InsertIntersectSize(s[0].id, Ids(t), set x | x in ex);
    }
  }

  /** On a table with distinct ids, as the seed table is, a successful random
      query returns `min(count, N - |excluded ∩ table ids|)` distinct sentences. */
  lemma RandomSentencesCount(table: seq<Sentence>, count: int, excludeIds: Option<string>, draws: seq<nat>)
    requires 1 <= count <= 50
    requires DistinctIds(table)
    requires ParseExcludeIds(excludeIds).Success?
    ensures
      var ex := ParseExcludeIds(excludeIds).value;
      var r := RandomSentences(table, count, excludeIds, draws).value;
      |r| == Min(count, |table| - |Ids(table) * set x | x in ex|) && Distinct(r)
  {
    assert Distinct(table);
    ExcludedCount(table, ParseExcludeIds(excludeIds).value);
  }

  function InCategory(category: string): Sentence -> bool {
    (s: Sentence) => s.category == Some(category)
  }

  /** `GET /api/sentences/category/{category}`: exact, case-sensitive match. */
  function SentencesByCategory(table: seq<Sentence>, category: string, count: int, draws: seq<nat>)
    : (r: seq<Sentence>)
    requires 1 <= count <= 50
    ensures |r| == Min(count, |Filter(table, InCategory(category))|)
    ensures forall s :: s in r ==> s in table && s.category == Some(category)
    ensures multiset(r) <= multiset(Filter(table, InCategory(category)))
    ensures Distinct(table) ==> Distinct(r)
    ensures count >= |Filter(table, InCategory(category))| ==>
      multiset(r) == multiset(Filter(table, InCategory(category)))
  {
    SampleMatching(table, InCategory(category), count, draws)
  }

  /** `GET /api/sentences/category-simple/{category}`: the same query under another path. */
  function SentencesByCategorySimple(table: seq<Sentence>, category: string, count: int, draws: seq<nat>)
    : (r: seq<Sentence>)
    requires 1 <= count <= 50
    ensures r == SentencesByCategory(table, category, count, draws)
  {
    SentencesByCategory(table, category, count, draws)
  }

  function AtLevel(level: int): Sentence -> bool {
    (s: Sentence) => s.difficultyLevel == level
  }

  /** `GET /api/sentences/difficulty/{level}`. */
  function SentencesByDifficulty(table: seq<Sentence>, level: int, count: int, draws: seq<nat>)
    : (r: seq<Sentence>)
    requires 1 <= level <= 5
    requires 1 <= count <= 50
    ensures |r| == Min(count, |Filter(table, AtLevel(level))|)
    ensures forall s :: s in r ==> s in table && s.difficultyLevel == level
    ensures multiset(r) <= multiset(Filter(table, AtLevel(level)))
    ensures Distinct(table) ==> Distinct(r)
    ensures count >= |Filter(table, AtLevel(level))| ==>
      multiset(r) == multiset(Filter(table, AtLevel(level)))
  {
    SampleMatching(table, AtLevel(level), count, draws)
  }

  /** The shared body of the category and difficulty queries: filter, then
      sample `min(count, matches)` of the matches. */
  function SampleMatching(table: seq<Sentence>, keep: Sentence -> bool, count: int, draws: seq<nat>)
    : (r: seq<Sentence>)
    requires 1 <= count <= 50
    ensures |r| == Min(count, |Filter(table, keep)|)
    ensures forall s :: s in r ==> s in table && keep(s)
    ensures multiset(r) <= multiset(Filter(table, keep))
    ensures Distinct(table) ==> Distinct(r)
    ensures count >= |Filter(table, keep)| ==> multiset(r) == multiset(Filter(table, keep))
  {
    var matching := Filter(table, keep);
    if |matching| == 0 then []
    else
      var picked := Sample(matching, Min(count, |matching|), draws);
      PickedMatches(table, keep, count, picked);
      picked
  }

  /** What a selection of `min(count, matches)` of the matches, taken without
      replacement, inherits from the table. */
  lemma PickedMatches(table: seq<Sentence>, keep: Sentence -> bool, count: int, picked: seq<Sentence>)
    requires multiset(picked) <= multiset(Filter(table, keep))
    requires |picked| == Min(count, |Filter(table, keep)|)
    ensures forall s :: s in picked ==> s in table && keep(s)
    ensures count >= |Filter(table, keep)| ==> multiset(picked) == multiset(Filter(table, keep))
    ensures Distinct(table) ==> Distinct(picked)
  {
    var matching := Filter(table, keep);
    assert forall s :: s in picked ==> s in multiset(matching);
    if count >= |matching| {
      SampleAllIsPermutation(matching, picked);
    }
    if Distinct(table) {
      FilterDistinct(table, keep);
      SampleDistinct(matching, picked);
    }
  }

  /** A category that no sentence of the table carries yields an empty list rather than an error. */
  lemma AbsentCategoryIsEmpty(table: seq<Sentence>, category: string, count: int, draws: seq<nat>)
    requires 1 <= count <= 50
    requires forall i :: 0 <= i < |table| ==> table[i].category != Some(category)
    ensures SentencesByCategory(table, category, count, draws) == []
  {
    FilterKeepsNone(table, InCategory(category));
  }

  /** On the seed table an unknown category yields an empty list. */
  lemma UnknownCategoryIsEmpty(draws: seq<nat>)
    ensures SentencesByCategory(SeedSentences, "nonexistent", 5, draws) == []
  {
    SeedTableShape();
    assert forall i :: 0 <= i < |SeedSentences| ==> SeedSentences[i].category != Some("nonexistent");
    AbsentCategoryIsEmpty(SeedSentences, "nonexistent", 5, draws);
  }

  /** A level that no sentence of the table has yields an empty list. */
  lemma AbsentLevelIsEmpty(table: seq<Sentence>, level: int, count: int, draws: seq<nat>)
    requires 1 <= level <= 5 && 1 <= count <= 50
    requires forall i :: 0 <= i < |table| ==> table[i].difficultyLevel != level
    ensures SentencesByDifficulty(table, level, count, draws) == []
  {
    FilterKeepsNone(table, AtLevel(level));
  }

  /** No seed sentence has difficulty 3, so that query is empty too. */
  lemma LevelThreeIsEmpty(draws: seq<nat>)
    ensures SentencesByDifficulty(SeedSentences, 3, 5, draws) == []
  {
    assert forall i :: 0 <= i < |SeedSentences| ==> SeedSentences[i].difficultyLevel != 3;
    AbsentLevelIsEmpty(SeedSentences, 3, 5, draws);
  }
}
