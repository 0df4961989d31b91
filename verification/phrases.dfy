/** The AI phrase endpoints: optional filters applied one after another over a
    fixed phrase table, then a random choice with a silent fallback to the
    whole table. */
module Phrases {
  import opened Results
  import opened Seqs
  import opened Text
  import opened Sampling

  datatype PhraseEntry = PhraseEntry(phrase: string, translation: string, category: string, difficulty: int)

  /** The seed table `AI_PHRASES`. */
  const AIPhrases: seq<PhraseEntry> := [
    PhraseEntry("Lanmou se pi bèl bagay nan lavi.", "Love is the most beautiful thing in life.", "emotions", 3),
    PhraseEntry("Edikasyon se kle siksè.", "Education is the key to success.", "education", 2),
    PhraseEntry("Fanmi se richès ki pi enpòtan.", "Family is the most important wealth.", "family", 2),
    PhraseEntry("Travay di fè moun rich.", "Hard work makes people rich.", "work", 2),
    PhraseEntry("Respè se baz tout bon relasyon.", "Respect is the basis of all good relationships.", "society", 3)
  ]

  /** The response body: the chosen entry plus its word count. */
  datatype AIPhrase = AIPhrase(
    phrase: string,
    englishTranslation: string,
    category: string,
    difficultyLevel: int,
    wordCount: int)

  /** The optional query parameters. */
  datatype PhraseQuery = PhraseQuery(
    category: Option<string>,
    difficultyLevel: Option<int>,
    minWords: Option<int>,
    maxWords: Option<int>)

  /** The ranges the query declares: difficulty in 1..5, word bounds at least 1. */
  predicate ValidQuery(q: PhraseQuery) {
    && (q.difficultyLevel.Some? ==> 1 <= q.difficultyLevel.value <= 5)
    && (q.minWords.Some? ==> q.minWords.value >= 1)
    && (q.maxWords.Some? ==> q.maxWords.value >= 1)
  }

  // A filter applies when its parameter is truthy in Python: present, and not "" or 0.

  predicate CategoryActive(q: PhraseQuery) {
    q.category.Some? && q.category.value != ""
  }

  predicate LevelActive(q: PhraseQuery) {
    q.difficultyLevel.Some? && q.difficultyLevel.value != 0
  }

  predicate MinActive(q: PhraseQuery) {
    q.minWords.Some? && q.minWords.value != 0
  }

  predicate MaxActive(q: PhraseQuery) {
    q.maxWords.Some? && q.maxWords.value != 0
  }

  function WordCount(s: string): nat {
    |Words(s)|
  }

  predicate WithinWordBounds(q: PhraseQuery, e: PhraseEntry) {
    && (!MinActive(q) || WordCount(e.phrase) >= q.minWords.value)
    && (!MaxActive(q) || WordCount(e.phrase) <= q.maxWords.value)
  }

  /** An entry satisfies every filter the query switches on. */
  predicate Matches(q: PhraseQuery, e: PhraseEntry) {
    && (CategoryActive(q) ==> e.category == q.category.value)
    && (LevelActive(q) ==> e.difficulty == q.difficultyLevel.value)
    && WithinWordBounds(q, e)
  }

  function HasCategory(category: string): PhraseEntry -> bool {
    (e: PhraseEntry) => e.category == category
  }

  function HasDifficulty(level: int): PhraseEntry -> bool {
    (e: PhraseEntry) => e.difficulty == level
  }

  function WordBounds(q: PhraseQuery): PhraseEntry -> bool {
    (e: PhraseEntry) => WithinWordBounds(q, e)
  }

  /** The three filters in the order the handler applies them; together they keep
      exactly the matching entries, in table order. */
  function Candidates(table: seq<PhraseEntry>, q: PhraseQuery): (r: seq<PhraseEntry>)
    ensures forall e :: e in r <==> e in table && Matches(q, e)
  {
    var byCategory := if CategoryActive(q) then Filter(table, HasCategory(q.category.value)) else table;
    var byLevel := if LevelActive(q) then Filter(byCategory, HasDifficulty(q.difficultyLevel.value)) else byCategory;
    if MinActive(q) || MaxActive(q) then Filter(byLevel, WordBounds(q)) else byLevel
  }

  /** The entry the handler picks: a random matching entry, or a random entry of the
      whole table when nothing matches. Never an error. */
  function SelectEntry(table: seq<PhraseEntry>, q: PhraseQuery, draw: nat): (e: PhraseEntry)
    requires |table| > 0
    requires ValidQuery(q)
    ensures e in table
    ensures (exists x :: x in table && Matches(q, x)) ==> Matches(q, e)
  {
    var candidates := Candidates(table, q);
    if |candidates| == 0 then Choice(table, draw)
    else
      var e := Choice(candidates, draw);
      assert e in candidates;
      e
  }

  /** Every matching entry is the outcome for some draw: the filters lose nothing. */
  lemma SelectReachable(table: seq<PhraseEntry>, q: PhraseQuery, e: PhraseEntry)
    requires |table| > 0
    requires ValidQuery(q)
    requires e in table && Matches(q, e)
    ensures exists draw :: SelectEntry(table, q, draw) == e
  {
    var candidates := Candidates(table, q);
    var i := IndexOf(candidates, e);
    ModBelow(i, |candidates|);
    assert SelectEntry(table, q, i) == e;
  }

  /** The response body built from the chosen entry. */
  function Render(e: PhraseEntry): (r: AIPhrase)
    ensures r.phrase == e.phrase && r.englishTranslation == e.translation
    ensures r.category == e.category && r.difficultyLevel == e.difficulty
    ensures r.wordCount == |Words(e.phrase)|
    ensures 0 <= r.wordCount <= |e.phrase|
    ensures r.wordCount == 0 <==> forall i :: 0 <= i < |e.phrase| ==> IsSpace(e.phrase[i])
  {
    WordsCount(e.phrase);
    AIPhrase(e.phrase, e.translation, e.category, e.difficulty, WordCount(e.phrase))
  }

  /** `GET /api/ai/random-phrase` over the given phrase table. */
  function GeneratePhrase(table: seq<PhraseEntry>, q: PhraseQuery, draw: nat): (r: AIPhrase)
    requires |table| > 0
    requires ValidQuery(q)
    ensures exists e :: (
      && e in table
      && r.phrase == e.phrase && r.englishTranslation == e.translation
      && r.category == e.category && r.difficultyLevel == e.difficulty
      && ((exists x :: x in table && Matches(q, x)) ==> Matches(q, e)))
    ensures r.wordCount == |Words(r.phrase)|
  {
    var e := SelectEntry(table, q, draw);
    Render(e)
  }

  /** `GET /api/ai/gemini-phrase`: the same operation under another path. */
  function GeminiPhrase(table: seq<PhraseEntry>, q: PhraseQuery, draw: nat): (r: AIPhrase)
    requires |table| > 0
    requires ValidQuery(q)
    ensures r == GeneratePhrase(table, q, draw)
  {
    GeneratePhrase(table, q, draw)
  }

  /** A category that some entry carries is always honoured. */
  lemma CategoryHonoured(table: seq<PhraseEntry>, category: string, i: nat, draw: nat)
    requires category != ""
    requires i < |table| && table[i].category == category
    ensures GeneratePhrase(table, PhraseQuery(Some(category), None, None, None), draw).category == category
  {
    var q := PhraseQuery(Some(category), None, None, None);
    assert table[i] in table && Matches(q, table[i]);
  }

  /** A category no entry carries matches nothing, so the choice falls back to the
      whole table instead of failing. */
  lemma CategoryFallsBack(table: seq<PhraseEntry>, category: string, draw: nat)
    requires |table| > 0
    requires forall i :: 0 <= i < |table| ==> table[i].category != category
    ensures GeneratePhrase(table, PhraseQuery(Some(category), None, None, None), draw)
      == Render(table[draw % |table|])
  {
    if category != "" {
      FilterKeepsNone(table, HasCategory(category));
    }
  }

  /** The seed table has an `emotions` phrase and no `none-such` one; so asking for
      `emotions` always yields an emotions phrase, and asking for `none-such` falls
      back to the whole table. */
  lemma SeedPhraseCategories()
    ensures |AIPhrases| == 5
    ensures AIPhrases[0].category == "emotions"
    ensures forall i :: 0 <= i < |AIPhrases| ==> AIPhrases[i].category != "none-such"
  {
  }

  /** A string that is the words `ws` joined by single spaces has `|ws|` words. */
  lemma WordCountOfJoined(s: string, ws: seq<string>)
    requires forall w :: w in ws ==> IsWord(w)
    requires Unwords(ws) == s
    ensures WordCount(s) == |ws|
  {
    WordsUnwords(ws);
  }

  /** The word count of words separated by any non-empty whitespace, with any
      whitespace around them, is the number of words. */
  lemma WordCountOfSpaced(lead: string, ws: seq<string>, gaps: seq<string>)
    requires |gaps| == |ws|
    requires forall i :: 0 <= i < |lead| ==> IsSpace(lead[i])
    requires forall w :: w in ws ==> IsWord(w)
    requires forall k, i :: 0 <= k < |gaps| && 0 <= i < |gaps[k]| ==> IsSpace(gaps[k][i])
    requires forall k :: 0 <= k < |gaps| - 1 ==> |gaps[k]| > 0
    ensures WordCount(lead + Spaced(ws, gaps)) == |ws|
  {
    WordsSpaced(lead, ws, gaps);
  }

  /** The word count the service reports for the seed phrase on education. */
  lemma EducationPhraseWordCount()
    ensures |AIPhrases| == 5
    ensures AIPhrases[1].category == "education"
    ensures WordCount(AIPhrases[1].phrase) == 4
  {
    EducationPhraseText();
    EducationWords();
  }

  /** The text of the seed phrase on education. */
  lemma EducationPhraseText()
    ensures |AIPhrases| == 5
    ensures AIPhrases[1].category == "education"
    ensures AIPhrases[1].phrase == "Edikasyon se kle siksè."
  {
  }

  /** "Edikasyon se kle siksè." is four words joined by single spaces. */
  lemma EducationWords()
    ensures WordCount("Edikasyon se kle siksè.") == 4
  {
    var a, b, c, d := "Edikasyon", "se", "kle", "siksè.";
    assert a + " " + b + " " + c + " " + d == "Edikasyon se kle siksè.";
    assert IsWord(a) && IsWord(b);
    assert IsWord(c) && IsWord(d);
    WordCountFour(a, b, c, d);
  }

  /** Four words joined by single spaces count four. */
  lemma WordCountFour(a: string, b: string, c: string, d: string)
    requires IsWord(a) && IsWord(b) && IsWord(c) && IsWord(d)
    ensures WordCount(a + " " + b + " " + c + " " + d) == 4
  {
    UnwordsFour(a, b, c, d);
    WordCountOfJoined(a + " " + b + " " + c + " " + d, [a, b, c, d]);
  }

  /** Four strings joined by single spaces, one separator at a time. */
  lemma UnwordsFour(a: string, b: string, c: string, d: string)
    ensures Unwords([a, b, c, d]) == a + " " + b + " " + c + " " + d
  {
    assert [c, d][1..] == [d];
    assert Join([c, d], ' ') == c + " " + d;
    assert [b, c, d][1..] == [c, d];
    assert Join([b, c, d], ' ') == b + " " + (c + " " + d);
    assert [a, b, c, d][1..] == [b, c, d];
    assert Join([a, b, c, d], ' ') == a + " " + (b + " " + (c + " " + d));
  }
}
