# NotizenApp core, modelled in Dafny

NotizenApp is a React Native voice-note app. A recorded transcript is turned into
structured content (title, category, content, tags, priority) by `LLMService`,
stored as a JSON list by `StorageService`, and listed, searched and labelled by
`HomeScreen`. This project models the pure logic of those three pieces and proves
what they promise:

- the fallback structuring of `LLMService`. `structureNote` always returns it,
  because the inference branch is commented out. It is built from a title made of
  the first five space-separated pieces of the transcript, and a German
  stop-word-filtered keyword extraction that keeps up to five distinct tags.
- the static `initialize`/`release` state of `LLMService`, with `initLlama`
  passed in as a function that may fail;
- the list operations of `StorageService`, over a stored value that is absent,
  a list of notes, or unreadable;
- the newest-first sort of `loadNotes`, the case-insensitive search of
  `filterNotes`, and the priority chip label in `HomeScreen`.

Files:

- `results.dfy` (`Results`): `Option`, `Result`, `Outcome`.
- `seqs.dfy` (`Seqs`): `Filter` (`Array.prototype.filter`), `Take` (`slice(0, n)`),
  `Dedup` (the iteration order of a `Set`), `SubsequenceOf`, `Distinct`.
- `text.dfy` (`Text`): the JavaScript string primitives. These are `toLowerCase`
  over a fixed alphabet, `split(' ')` with `join(' ')`, `split(/\s+/)`,
  `trim` and `includes`.
- `note.dfy` (`NoteModel`): the records of `src/types/Note.ts`. A `Date` is its
  millisecond count.
- `llm_service.dfy` (`LlmService`), `storage_service.dfy` (`StorageService`),
  `home_screen.dfy` (`HomeScreen`): the three components.

Modelling choices:

- `\s` and the characters `trim` removes are the exact ECMAScript set:
  WhiteSpace plus LineTerminator.
- Lower-casing maps ASCII `A`–`Z` and `Ä`, `Ö`, `Ü` and leaves every other
  character alone. `\w` is ASCII `[A-Za-z0-9_]`, as in a regular expression
  without the `u` flag.
- `getAllNotes` treats a missing item and an empty string the same way,
  because `!notesJson` holds for both: both are `Absent`. A value that
  `JSON.parse` or the later `map` rejects is `Corrupt`. A `getItem` that
  rejects also lands in that `catch`, but the model has no read failure; see
  `StorageService.GetAllNotes` under "## Left out".
- The result of `AsyncStorage.setItem` is a parameter. A failed write is
  rethrown, and the model assumes it leaves the stored value as it was.
- The current time in `updateNote` is a parameter `clock`. `new Date()` is called inside the `map` callback, once per matching note, so `clock(i)` is the reading at position `i`.
- `structureNote`'s `catch` branch is selected by a boolean parameter, which
  stands for an exception raised inside the `try` block.
- `cleaned.length` counts UTF-16 code units. The characters that survive
  cleaning are all single code units, so it equals the length of the Dafny
  string.
- `Array.prototype.sort` is stable since ES2019. `loadNotes` is modelled as a
  stable insertion sort, and its stability is proved.

Behaviours of the code that a reader might not expect, and which the model follows:

- The title splits on a single space (src/services/LLMService.ts:76), not on
  whitespace runs. Adjacent spaces produce empty pieces, and these count
  towards the five.
- A failed initialisation is rethrown after being logged
  (src/services/LLMService.ts:20-23), and the state stays as it was.
- `release` clears the fields only when a context is held
  (src/services/LLMService.ts:137).
- Nothing parses a model answer. The completion call is commented out, so
  every note gets the fallback structure (src/services/LLMService.ts:55-69).
- Tag cleaning keeps `\w` and `äöüß` only (src/services/LLMService.ts:123), so
  a letter such as `é` is deleted.

## Model

| member | source | states |
|---|---|---|
| `LlmService.FallbackTitle` | src/services/LLMService.ts:76-79 | a transcript with fewer than five spaces is its own title; a longer one gives a title ending in `...` |
| `LlmService.FallbackTitleRule` | src/services/LLMService.ts:76-79 | with at most four spaces (five pieces of `split(' ')`) the title is the whole transcript, so `""` gives `""`; otherwise it is the transcript cut just before its fifth space, followed by `...`; empty pieces between adjacent spaces count |
| `LlmService.FifthSpace` | src/services/LLMService.ts:76-79 | for a transcript with five or more spaces, gives the position of the fifth space: the text before it has exactly four spaces and the title is that text plus `...` |
| `LlmService.CleanWord` | src/services/LLMService.ts:123 | the cleaned word holds exactly the characters of the word that are in `\w` or `äöüß`, each with its multiplicity and in its original order |
| `LlmService.AddKeyword` | src/services/LLMService.ts:123-130 | one `forEach` step keeps the old set as a prefix and adds at most one entry: the cleaned word, exactly when it qualifies and fewer than five keywords are held; re-adding a present word changes nothing |
| `LlmService.CollectKeywords` | src/services/LLMService.ts:122-131 | the keyword set after the `forEach` has at most five entries, each longer than three characters and not a common word, with no repeats |
| `LlmService.ExtractSimpleTags` | src/services/LLMService.ts:90-134 | at most five tags, each longer than three characters and outside the 25-word stop list, pairwise distinct |
| `LlmService.CollectKeywordsIsFirstDistinctQualifying` | src/services/LLMService.ts:122-133 | reference definition: the tags are the first five distinct qualifying cleaned words in text order, so a repeated word never takes a second slot, and the size check runs before each insertion |
| `LlmService.TagCharsAreLowerKeywordChars` | src/services/LLMService.ts:121-123 | every tag character is in `[a-z0-9_äöüß]`, because the text is lower-cased before non-word characters are deleted |
| `LlmService.TagsInFirstQualifyingOrder` | src/services/LLMService.ts:122-133 | every tag is a qualifying word of the text, and the tags appear in the order in which each first qualifies |
| `LlmService.TagsCompleteBelowCap` | src/services/LLMService.ts:124-129 | when fewer than five tags come out, every qualifying word of the text is among them: the cap is the only reason to drop one |
| `LlmService.CreateFallbackStructure` | src/services/LLMService.ts:72-88 | category is `Allgemein`, content is the transcript verbatim, priority is `medium`, tags are `extractSimpleTags` of the transcript, title is the fallback title |
| `LlmService.StructureNote` | src/services/LLMService.ts:26-70 | the result equals the fallback structure of the transcript, whatever the context state and also on the exception path |
| `LlmService.Initialize` | src/services/LLMService.ts:8-24 | a successful call leaves the flag set; a failed one leaves the state as it was, uninitialised; the flag-iff-context invariant is preserved |
| `LlmService.Release` | src/services/LLMService.ts:136-142 | afterwards no context is held; without a context nothing changes; from a consistent state the flag ends cleared |
| `LlmService.InitializeWhenInitializedIsNoOp` | src/services/LLMService.ts:10 | `initialize` with the flag already set changes nothing and succeeds, whatever `initLlama` would do |
| `LlmService.InitializeSuccess` | src/services/LLMService.ts:11-17 | a successful load stores the context and sets the flag |
| `LlmService.InitializeFailureRethrows` | src/services/LLMService.ts:20-23 | a failing `initLlama` is rethrown with its error and the state stays uninitialized |
| `LlmService.ReleaseBehaviour` | src/services/LLMService.ts:136-142 | `release` clears both fields when a context is held, does nothing otherwise, and is idempotent |
| `LlmService.RunKeepsConsistent` | src/services/LLMService.ts:5-24 | across any sequence of `initialize` and `release` calls from a consistent state, the flag is set exactly when a context is held |
| `LlmService.InitializeCallsKeepContext` | src/services/LLMService.ts:10-19 | once a context is loaded, any number of further `initialize` calls, each completing before the next starts, keep it: sequential calls never load a second context |
| `Seqs.Filter` | src/screens/HomeScreen.tsx:71-79 | `Array.prototype.filter`: the result is an order-preserving subsequence holding every copy of each element that passes the test and nothing else |
| `Seqs.Take` | src/services/LLMService.ts:78 | `slice(0, n)`: a prefix of length `n`, or the whole sequence when it is shorter |
| `Seqs.Dedup` | src/services/LLMService.ts:129-133 | the insertion order of a `Set`: no repeats and the same elements as the input |
| `Seqs.DedupFirstSeenOrder` | src/services/LLMService.ts:129-133 | the `Set` order is first-occurrence order: the elements are listed by increasing index of their first occurrence in the input |
| `Text.LowerChar` | src/screens/HomeScreen.tsx:70-77 | each ASCII capital becomes the small letter at the same alphabet position, `Ä`/`Ö`/`Ü` become `ä`/`ö`/`ü`, and every other character is unchanged; the result is never a capital, and `\w` membership is kept |
| `Text.ToLower` | src/screens/HomeScreen.tsx:70-77 | `toLowerCase` keeps the length and lower-cases each character on its own, as `LowerChar` states |
| `Text.ToLowerAlphabet` | src/services/LLMService.ts:121 | the capitals `A`-`Z`, `Ä`, `Ö`, `Ü` lower-case to `a`-`z`, `ä`, `ö`, `ü` |
| `Text.Split` | src/services/LLMService.ts:76 | `split(' ')` yields one more piece than there are separators; no piece contains the separator; joining the pieces gives back the string |
| `Text.SplitJoin` | src/services/LLMService.ts:76-78 | splitting undoes joining for separator-free pieces |
| `Text.SplitWhitespace` | src/services/LLMService.ts:121 | `split(/\s+/)` yields pieces without whitespace whose characters come from the text; only the first and last piece can be empty |
| `Text.SplitWhitespaceIsSplitOfCollapsed` | src/services/LLMService.ts:121 | splitting on whitespace runs equals splitting on single spaces after each run is collapsed to one space |
| `Text.ToLowerHasNoUpper` | src/services/LLMService.ts:121 | a lower-cased string contains none of the upper-case letters of the modelled alphabet |
| `Text.Trim` | src/screens/HomeScreen.tsx:65 | the trimmed query is empty exactly when the query is all whitespace; otherwise it neither starts nor ends with whitespace |
| `Text.IncludesIff` | src/screens/HomeScreen.tsx:73-77 | `includes` holds exactly when the needle occurs at some position of the haystack |
| `StorageService.GetAllNotes` | src/services/StorageService.ts:21-38 | nothing stored, an empty item and an unparsable item all read as `[]`; a stored list reads back as itself |
| `StorageService.Persist` | src/services/StorageService.ts:11-17 | a successful `setItem` makes the written list what `getAllNotes` reads back; a failed one is rethrown and the stored value stays |
| `StorageService.SaveNote` | src/services/StorageService.ts:7-19 | after a successful write the list is the old list plus the note at the end; a failed write is rethrown and storage is unchanged |
| `StorageService.SaveNoteAppends` | src/services/StorageService.ts:9-14 | length grows by one, the old list is a prefix, and the note's multiplicity grows by one even if its id is already stored |
| `StorageService.SaveOntoUnreadableStorage` | src/services/StorageService.ts:9-14 | saving onto absent or corrupt storage leaves exactly the one-element list |
| `StorageService.Merge` | src/services/StorageService.ts:45 | the merged note's `updatedAt` is the supplied time, even when the patch carries one |
| `StorageService.MergeOverrides` | src/services/StorageService.ts:45 | each of the seven other properties is the patch's value when the patch has it, and the note's value otherwise |
| `StorageService.MergeProperties` | src/services/StorageService.ts:45 | an empty patch only stamps the time; merging the same patch twice equals merging it once; without an id in the patch the id stays |
| `StorageService.UpdateById` | src/services/StorageService.ts:43-47 | length and positions are kept; notes with another id are unchanged; a matching note at position `i` becomes the merge with `updatedAt` set to that position's clock reading |
| `StorageService.UpdateNote` | src/services/StorageService.ts:40-56 | after a successful write the stored list is the updated list; a failed write is rethrown and storage is unchanged |
| `StorageService.UpdateKeepsIds` | src/services/StorageService.ts:43-46 | without an id in the patch, every position keeps its id |
| `StorageService.UpdateIdempotent` | src/services/StorageService.ts:43-47 | applying the same update twice under the same clock readings equals applying it once, also when the patch carries an id |
| `StorageService.RemoveById` | src/services/StorageService.ts:61 | no remaining note has the id; a note remains exactly when it was present with another id; notes with another id keep their multiplicity and their relative order |
| `StorageService.DeleteNote` | src/services/StorageService.ts:58-70 | after a successful write the stored list is the filtered list; a failed write is rethrown and storage is unchanged |
| `StorageService.DeleteIdempotent` | src/services/StorageService.ts:60-65 | deleting an id twice leaves the same storage as deleting it once |
| `StorageService.RemoveByIdAppend` | src/services/StorageService.ts:61 | removal distributes over concatenation, so it acts on each note independently and in place |
| `StorageService.RemoveAbsentId` | src/services/StorageService.ts:61 | removing an id no note carries changes nothing |
| `StorageService.RewriteUnreadableStorage` | src/services/StorageService.ts:42-51 | updating or deleting on absent or corrupt storage writes back an empty list |
| `HomeScreen.InsertByTimeSorted` | src/screens/HomeScreen.tsx:59-61 | inserting into a newest-first list keeps it newest first |
| `HomeScreen.InsertByTimeAddsNote` | src/screens/HomeScreen.tsx:59-61 | insertion adds exactly the inserted note to the multiset of notes |
| `HomeScreen.SortNewestFirst` | src/screens/HomeScreen.tsx:59-61 | the result is a permutation of the notes with timestamps in non-increasing order |
| `HomeScreen.SortNewestFirstStable` | src/screens/HomeScreen.tsx:59-61 | notes with equal timestamps keep their original relative order |
| `HomeScreen.LoadNotes` | src/screens/HomeScreen.tsx:57-62 | the screen's list is a permutation of the stored notes, newest first |
| `HomeScreen.FilterNotes` | src/screens/HomeScreen.tsx:64-81 | a blank query returns the list unchanged; otherwise the result is an order-preserving subsequence that keeps every copy of each matching note and holds exactly the notes whose lower-cased title, content, category or some tag includes the untrimmed lower-cased query |
| `HomeScreen.BlankQueryKeepsAll` | src/screens/HomeScreen.tsx:65-67 | a query made only of whitespace keeps every note |
| `HomeScreen.NoteMatchesIff` | src/screens/HomeScreen.tsx:72-78 | a note matches exactly when the query occurs at some position of one of its lower-cased fields or tags |
| `HomeScreen.UntrimmedQueryTakesPart` | src/screens/HomeScreen.tsx:65-70 | the whitespace of a non-blank query takes part in matching: such a query finds no note whose fields contain no whitespace |
| `HomeScreen.PriorityLabel` | src/screens/HomeScreen.tsx:98-113 | no chip exactly when the priority is absent |
| `HomeScreen.PriorityLabelRoundTrip` | src/screens/HomeScreen.tsx:108-112 | high reads `Hohe Priorität`, medium `Mittlere Priorität`, low `Niedrige Priorität`; the label determines the priority |

## Left out

- Inference with `llama.rn`: the prompt text, `completion`, and any parsing of the model's answer. The call is commented out in the service, and nothing parses a response.
- `src/services/ModelDownloadService.ts`: file-system and HTTP plumbing over `react-native-fs`, with a floating-point progress ratio. ModelDownloadService.ts is not part of this model.
- The argument `HomeScreen` passes to `initialize` (a progress callback where a path is expected): this is caller plumbing; the model takes the path as given.
- `src/services/VoiceService.ts`, `src/components/VoiceRecorder.tsx`, `App.tsx`, and all rendering, styles, dialogs and the two-second polling interval: platform callbacks and UI.
- `JSON.stringify`/`JSON.parse` and the `Date` reconstruction in `getAllNotes`: the stored text is abstracted to absent, a note list, or unreadable. Timestamps are integers, so invalid dates (`NaN`) are not modelled.
- Concurrent `saveNote`/`updateNote`/`deleteNote` calls racing on the read-modify-write: each call is modelled as one atomic step.
- `LlmService.InitializeCallsKeepContext`: overlapping `initialize` calls are not modelled. The flag is set only after `await initLlama(...)` resolves (src/services/LLMService.ts:10-17). Two calls that overlap both load a context, and the second overwrites the first without releasing it. The model runs each call as one atomic step.
- `StorageService.GetAllNotes`: a failing `AsyncStorage.getItem` while a list is stored is not modelled. The source returns `[]` from its `catch` (src/services/StorageService.ts:34-36). The next `saveNote` would then write `[note]` over the stored list and lose every earlier note. In the model a `Saved` list always reads back as itself.
- Logging with `console.log`/`console.error`: it has no effect on results.
- `StorageService.Merge`: a property set to `undefined` explicitly in a `Partial<Note>` is not modelled; a patch field is either present with a value or absent.
- `Text.ToLower`: full Unicode `toLowerCase` is not modelled; only ASCII letters and `Ä`, `Ö`, `Ü` are mapped.
- The chip colour chosen alongside the priority label (src/screens/HomeScreen.tsx:100-106): styling only.
