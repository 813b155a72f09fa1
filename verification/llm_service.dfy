/** `LLMService` of `src/services/LLMService.ts`: the deterministic fallback
    that turns a transcript into structured content, and the static
    initialise/release state of the inference context. The inference call
    itself is disabled in the service, so `StructureNote` always ends in the
    fallback. */
module LlmService {
  import opened Results
  import opened Seqs
  import opened Text
  import opened NoteModel

  /** Words of the transcript kept in the fallback title. */
  const TitleWords: nat := 5
  const Ellipsis: string := "..."
  /** At most this many tags are extracted. */
  const MaxTags: nat := 5
  /** A cleaned word needs strictly more characters than this to become a tag. */
  const MinTagLengthExclusive: nat := 3
  const FallbackCategory: string := "Allgemein"

  /** The German function words that never become tags. */
  const CommonWords: set<string> := {
    "der", "die", "das", "und", "oder", "aber", "ich", "du", "er", "sie",
    "es", "wir", "ihr", "ist", "sind", "war", "waren", "ein", "eine", "für",
    "mit", "auf", "von", "zu", "in"
  }

  // ---------------------------------------------------------------------
  // Fallback title
  // ---------------------------------------------------------------------

  /** The first five pieces of `transcript.split(' ')` joined by a space,
      followed by an ellipsis when there were more than five pieces. */
  function FallbackTitle(transcript: string): (title: string)
    ensures Occurrences(transcript, ' ') < TitleWords ==> title == transcript
    ensures Occurrences(transcript, ' ') >= TitleWords ==>
              |title| >= |Ellipsis| && title[|title| - |Ellipsis|..] == Ellipsis
  {
    var words := Split(transcript, ' ');
    Join(Take(words, TitleWords), ' ') + (if |words| > TitleWords then Ellipsis else "")
  }

  /** With at most four spaces (at most five pieces) the title is the whole
      transcript; with five or more it is the transcript cut just before its
      fifth space, followed by "...". Empty pieces between adjacent spaces
      count towards the five. */
  lemma FallbackTitleRule(transcript: string)
    ensures Occurrences(transcript, ' ') < TitleWords ==> FallbackTitle(transcript) == transcript
    ensures Occurrences(transcript, ' ') >= TitleWords ==>
              exists k :: 0 <= k < |transcript| && transcript[k] == ' '
                && Occurrences(transcript[..k], ' ') == TitleWords - 1
                && FallbackTitle(transcript) == transcript[..k] + Ellipsis
  {
    if Occurrences(transcript, ' ') >= TitleWords {
      var k := FifthSpace(transcript);
    }
  }

  /** Position of the fifth space of a transcript that has one; the title
      is the text before it. */
  lemma FifthSpace(transcript: string) returns (k: nat)
    requires Occurrences(transcript, ' ') >= TitleWords
    ensures k < |transcript| && transcript[k] == ' '
    ensures Occurrences(transcript[..k], ' ') == TitleWords - 1
    ensures FallbackTitle(transcript) == transcript[..k] + Ellipsis
  {
    var p := Split(transcript, ' ');
    var head, tail := p[..TitleWords], p[TitleWords..];
    assert p == head + tail;
    JoinAppend(head, tail, ' ');
    var h := Join(head, ' ');
    assert transcript == h + [' '] + Join(tail, ' ');
    k := |h|;
    assert transcript[..k] == h;
    SplitJoin(head, ' ');
    assert Split(transcript[..k], ' ') == head;
    assert Take(p, TitleWords) == head;
  }

  // ---------------------------------------------------------------------
  // Keyword extraction
  // ---------------------------------------------------------------------

  /** Characters `word.replace(/[^\wäöüß]/g, '')` keeps. */
  predicate IsKeywordChar(c: char) {
    IsWordChar(c) || c == 'ä' || c == 'ö' || c == 'ü' || c == 'ß'
  }

  /** Characters a tag is made of: `[a-z0-9_äöüß]`. */
  predicate IsTagChar(c: char) {
    ('a' <= c <= 'z') || ('0' <= c <= '9') || c == '_'
    || c == 'ä' || c == 'ö' || c == 'ü' || c == 'ß'
  }

  /** Deletes every character outside `\w` and äöüß, keeping the order of the rest. */
  function CleanWord(word: string): (cleaned: string)
    ensures forall c :: c in cleaned <==> c in word && IsKeywordChar(c)
    ensures forall c :: multiset(cleaned)[c] == if IsKeywordChar(c) then multiset(word)[c] else 0
    ensures SubsequenceOf(cleaned, word)
  {
    Filter(word, IsKeywordChar)
  }

  /** A cleaned word that may become a tag: longer than three characters and
      not a common word. */
  predicate Qualifies(cleaned: string) {
    |cleaned| > MinTagLengthExclusive && cleaned !in CommonWords
  }

  /** One step of the `forEach` over the words: the set size is checked
      before the insertion, and inserting a word already present changes
      nothing. */
  function AddKeyword(keywords: seq<string>, word: string): (r: seq<string>)
    ensures keywords <= r && |r| <= |keywords| + 1
    ensures r == keywords || (r == keywords + [CleanWord(word)] && CleanWord(word) !in keywords)
    ensures forall w :: w in r <==>
              w in keywords || (w == CleanWord(word) && Qualifies(w) && |keywords| < MaxTags)
  {
    var cleaned := CleanWord(word);
    if Qualifies(cleaned) && |keywords| < MaxTags then
      if cleaned in keywords then keywords else keywords + [cleaned]
    else
      keywords
  }

  /** The keyword set after visiting `words` in order, in insertion order. */
  function CollectKeywords(words: seq<string>): (keywords: seq<string>)
    ensures |keywords| <= MaxTags
    ensures forall i :: 0 <= i < |keywords| ==> Qualifies(keywords[i])
    ensures Distinct(keywords)
    decreases |words|
  {
    if words == [] then []
    else AddKeyword(CollectKeywords(words[..|words| - 1]), words[|words| - 1])
  }

  /** `extractSimpleTags`: lower-case, split on whitespace runs, clean each
      word, keep the first five distinct qualifying words. */
  function ExtractSimpleTags(text: string): (tags: seq<string>)
    ensures |tags| <= MaxTags
    ensures forall i :: 0 <= i < |tags| ==> |tags[i]| > MinTagLengthExclusive && tags[i] !in CommonWords
    ensures Distinct(tags)
  {
    CollectKeywords(SplitWhitespace(ToLower(text)))
  }

  /** The cleaned form of each word. */
  function CleanedWords(words: seq<string>): (r: seq<string>)
    ensures |r| == |words|
    ensures forall i :: 0 <= i < |words| ==> r[i] == CleanWord(words[i])
  {
    seq(|words|, i requires 0 <= i < |words| => CleanWord(words[i]))
  }

  /** Every qualifying cleaned word, repetitions included, in text order. */
  function QualifyingWords(words: seq<string>): seq<string> {
    Filter(CleanedWords(words), Qualifies)
  }

  /** Reference definition: the keywords are the first five distinct
      qualifying words, so a repeated word never takes a second slot. */
  lemma {:induction false} CollectKeywordsIsFirstDistinctQualifying(words: seq<string>)
    ensures CollectKeywords(words) == Take(Dedup(QualifyingWords(words)), MaxTags)
    decreases |words|
  {
    if words != [] {
      var init := words[..|words| - 1];
      var w := words[|words| - 1];
      assert words == init + [w];
      CollectKeywordsIsFirstDistinctQualifying(init);
      assert CollectKeywords(words) == AddKeyword(CollectKeywords(init), w);
      QualifyingWordsSnoc(init, w);
      var c := CleanWord(w);
      if Qualifies(c) {
        TakeDedupSnoc(QualifyingWords(init), c);
      } else {
        assert QualifyingWords(words) == QualifyingWords(init);
      }
    }
  }

  lemma QualifyingWordsSnoc(init: seq<string>, w: string)
    ensures var c := CleanWord(w);
      QualifyingWords(init + [w]) == QualifyingWords(init) + (if Qualifies(c) then [c] else [])
  {
    var c := CleanWord(w);
    assert CleanedWords(init + [w]) == CleanedWords(init) + [c];
    FilterAppend(CleanedWords(init), [c], Qualifies);
    FilterSingleton(c, Qualifies);
  }

  /** Appending one word to the candidates changes the first five distinct
      ones exactly as one `AddKeyword` step does. */
  lemma TakeDedupSnoc(q: seq<string>, c: string)
    ensures var d := Take(Dedup(q), MaxTags);
      Take(Dedup(q + [c]), MaxTags)
        == if |d| < MaxTags && c !in d then d + [c] else d
  {
    var q' := q + [c];
    assert q'[..|q'| - 1] == q;
    var d := Dedup(q);
    if |d| >= MaxTags && c !in d {
      assert (d + [c])[..MaxTags] == d[..MaxTags];
    }
  }

  /** Every character of a tag is in `[a-z0-9_äöüß]`: the text is lower-cased
      before the non-word characters are deleted. */
  lemma TagCharsAreLowerKeywordChars(text: string)
    ensures forall i, c :: 0 <= i < |ExtractSimpleTags(text)| && c in ExtractSimpleTags(text)[i] ==> IsTagChar(c)
  {
    var lower := ToLower(text);
    var words := SplitWhitespace(lower);
    var tags := ExtractSimpleTags(text);
    CollectKeywordsIsFirstDistinctQualifying(words);
    ToLowerHasNoUpper(text);
    forall i, c | 0 <= i < |tags| && c in tags[i]
      ensures IsTagChar(c)
    {
      var d := Dedup(QualifyingWords(words));
      assert tags[i] in d;
      assert tags[i] in CleanedWords(words);
      var j :| 0 <= j < |words| && CleanedWords(words)[j] == tags[i];
      assert c in words[j] && IsKeywordChar(c);
      assert c in lower;
    }
  }

  /** The tags are qualifying words of the text, listed in the order in
      which each first qualifies. */
  lemma TagsInFirstQualifyingOrder(text: string)
    ensures var q := QualifyingWords(SplitWhitespace(ToLower(text)));
      forall i :: 0 <= i < |ExtractSimpleTags(text)| ==> ExtractSimpleTags(text)[i] in q
    ensures var q := QualifyingWords(SplitWhitespace(ToLower(text)));
      var tags := ExtractSimpleTags(text);
      forall i, j :: 0 <= i < j < |tags| ==> FirstIndex(q, tags[i]) < FirstIndex(q, tags[j])
  {
    var words := SplitWhitespace(ToLower(text));
    var q := QualifyingWords(words);
    var d := Dedup(q);
    var tags := ExtractSimpleTags(text);
    CollectKeywordsIsFirstDistinctQualifying(words);
    DedupFirstSeenOrder(q);
    assert tags <= d;
    forall i | 0 <= i < |tags|
      ensures tags[i] == d[i] && tags[i] in q
    {
    }
  }

  /** The cap is the only reason a qualifying word is missing: with fewer
      than five tags, every qualifying word of the text is a tag. */
  lemma TagsCompleteBelowCap(text: string)
    ensures var q := QualifyingWords(SplitWhitespace(ToLower(text)));
      |ExtractSimpleTags(text)| < MaxTags ==> forall x :: x in q ==> x in ExtractSimpleTags(text)
  {
    var words := SplitWhitespace(ToLower(text));
    CollectKeywordsIsFirstDistinctQualifying(words);
  }

  // ---------------------------------------------------------------------
  // Fallback structure
  // ---------------------------------------------------------------------

  /** `createFallbackStructure`. */
  function CreateFallbackStructure(transcript: string): (r: StructuredContent)
    ensures r.title == FallbackTitle(transcript)
    ensures r.category == FallbackCategory
    ensures r.content == transcript
    ensures r.tags == ExtractSimpleTags(transcript)
    ensures r.priority == Some(Medium)
  {
    StructuredContent(
      title := FallbackTitle(transcript),
      category := FallbackCategory,
      content := transcript,
      tags := ExtractSimpleTags(transcript),
      priority := Some(Medium))
  }

  // ---------------------------------------------------------------------
  // Inference context lifecycle
  // ---------------------------------------------------------------------

  /** A loaded inference context; its contents belong to the inference library. */
  datatype Context = Context(handle: nat)

  datatype InitError = InitError(message: string)

  /** The two static fields of the service. */
  datatype LlmState = LlmState(context: Option<Context>, isInitialized: bool)

  const Uninitialized := LlmState(None, false)

  /** The flag is set exactly when a context is held. */
  predicate Consistent(s: LlmState) {
    s.context.Some? <==> s.isInitialized
  }

  /** `initialize(modelPath)`: loads a context through `initLlama` unless the
      flag is already set. A failing load is rethrown and leaves both fields
      as they were. */
  function Initialize(s: LlmState, modelPath: string, initLlama: string -> Result<Context, InitError>)
    : (r: (LlmState, Outcome<InitError>))
    ensures r.1.Pass? ==> r.0.isInitialized
    ensures r.1.Fail? ==> r.0 == s && !s.isInitialized
    ensures Consistent(s) ==> Consistent(r.0)
  {
    if s.isInitialized then (s, Pass)
    else
      match initLlama(modelPath)
      case Success(c) => (LlmState(Some(c), true), Pass)
      case Failure(e) => (s, Fail(e))
  }

  /** `release()`: drops the context and clears the flag, but only when a
      context is held. */
  function Release(s: LlmState): (r: LlmState)
    ensures r.context.None?
    ensures s.context.None? ==> r == s
    ensures Consistent(s) ==> !r.isInitialized
  {
    if s.context.Some? then Uninitialized else s
  }

  lemma InitializeWhenInitializedIsNoOp(s: LlmState, modelPath: string, initLlama: string -> Result<Context, InitError>)
    requires s.isInitialized
    ensures Initialize(s, modelPath, initLlama) == (s, Pass)
  {
  }

  lemma InitializeSuccess(s: LlmState, modelPath: string, initLlama: string -> Result<Context, InitError>)
    requires !s.isInitialized && initLlama(modelPath).Success?
    ensures var (s', outcome) := Initialize(s, modelPath, initLlama);
      s' == LlmState(Some(initLlama(modelPath).value), true) && outcome == Pass
  {
  }

  lemma InitializeFailureRethrows(s: LlmState, modelPath: string, initLlama: string -> Result<Context, InitError>)
    requires !s.isInitialized && initLlama(modelPath).Failure?
    ensures var (s', outcome) := Initialize(s, modelPath, initLlama);
      s' == s && !s'.isInitialized && outcome == Fail(initLlama(modelPath).error)
  {
  }

  lemma ReleaseBehaviour(s: LlmState)
    ensures s.context.Some? ==> Release(s) == Uninitialized
    ensures s.context.None? ==> Release(s) == s
    ensures Release(Release(s)) == Release(s)
  {
  }

  /** A call sequence against the service. */
  datatype LlmCall =
    | InitializeCall(modelPath: string, initLlama: string -> Result<Context, InitError>)
    | ReleaseCall

  function Step(s: LlmState, call: LlmCall): LlmState {
    match call
    case InitializeCall(path, load) => Initialize(s, path, load).0
    case ReleaseCall => Release(s)
  }

  function Run(s: LlmState, calls: seq<LlmCall>): LlmState
    decreases |calls|
  {
    if calls == [] then s else Run(Step(s, calls[0]), calls[1..])
  }

  /** From the initial state, every call sequence keeps the flag set exactly
      when a context is held; so `structureNote`'s test of both fields is a
      test of either. */
  lemma {:induction false} RunKeepsConsistent(s: LlmState, calls: seq<LlmCall>)
    requires Consistent(s)
    ensures Consistent(Run(s, calls))
    decreases |calls|
  {
    if calls != [] {
      assert Consistent(Step(s, calls[0]));
      RunKeepsConsistent(Step(s, calls[0]), calls[1..]);
    }
  }

  /** Once a context is loaded, further `initialize` calls keep it until a
      `release`: sequential `initialize` calls never load a second context. */
  lemma {:induction false} InitializeCallsKeepContext(s: LlmState, calls: seq<LlmCall>)
    requires s.isInitialized
    requires forall i :: 0 <= i < |calls| ==> calls[i].InitializeCall?
    ensures Run(s, calls) == s
    decreases |calls|
  {
    if calls != [] {
      InitializeCallsKeepContext(Step(s, calls[0]), calls[1..]);
    }
  }

  // ---------------------------------------------------------------------
  // structureNote
  // ---------------------------------------------------------------------

  /** `structureNote`: the inference branch is empty, so the normal path
      returns the fallback; `tryThrew` selects the catch path, which returns
      the fallback too. */
  function StructureNote(s: LlmState, rawTranscript: string, tryThrew: bool): (r: StructuredContent)
    ensures r == CreateFallbackStructure(rawTranscript)
  {
    if tryThrew then CreateFallbackStructure(rawTranscript)
    else if s.context.Some? && s.isInitialized then
      // the completion call and its parsing are disabled in the service
      CreateFallbackStructure(rawTranscript)
    else
      CreateFallbackStructure(rawTranscript)
  }
}
