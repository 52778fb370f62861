# Flashcard generator and study queue, modelled in Dafny

This project models the logic of a flashcard application. The application
asks the Gemini API for question/answer cards, either from a pasted text
or from a web-search topic. It keeps the generated sets in a history, and
it lets the learner rate cards in a grid or in a study session that
re-queues the cards not yet mastered.

Four modules, one per file:

- `Types` (`types.dfy`) holds the records of `types.ts`: `CardDifficulty`,
  `Flashcard`, `FlashcardWithState` (a nullable `difficulty` becomes an
  `Option`), `Source`, `GenerationMode` and `StudySession`. It also holds
  the `Option` and `Result` wrappers and the "ids are distinct" predicates.
- `GeminiService` (`gemini_service.dfy`) models the pure parts of
  `services/geminiService.ts`:
  - `cleanJsonString`: the greedy `\[[\s\S]*\]` match, then the trim and
    fence-stripping fallback;
  - the mapping and filtering of grounding chunks into sources;
  - the two `try`/`catch` blocks, which turn every failure into one of
    three error messages.
  The service reply and `JSON.parse` are inputs of these functions.
- `StudyView` (`study_view.dfy`) models the study-queue engine of
  `components/StudyView.tsx`:
  - the Fisher-Yates shuffle is an array loop;
  - the queue is the value `QueueState`, and `Rated` is its transition
    function;
  - the class `StudyView` holds the component's four state fields, and its
    methods are proved against `Rated` and `Initialized`;
  - `ScreenOf` gives the screen the component renders, with its counters.
- `App` (`app.dfy`) models the handlers of `App.tsx`. Each handler's new
  value is a pure function: `RateCards`, `EditCards`, `SyncHistory`,
  `RemoveSession`, `SessionTitle`, `Generate` and `Outcome`. The class `App` holds the
  state hooks, and its methods apply those functions under an invariant:
  - the grid index is in range;
  - card ids are unique in the working set and in every session;
  - session ids are unique in the history.
  The module also wires the study view's ratings into the working set, in
  two ways: as the components are written, and corrected (see Findings).

The card ids and session ids that `crypto.randomUUID` would give, the
timestamp, the Gemini reply and the `JSON.parse` result are parameters. A
freshness precondition stands in for the uniqueness of the generated ids.

## Model

| member | source | states |
|---|---|---|
| GeminiService.Trim | services/geminiService.ts:31 | `trim()`: the result has no whitespace at either end and is no longer than the input. It is empty exactly when the input is all whitespace. |
| GeminiService.CleanJsonString | services/geminiService.ts:25-32 | The cleaned text is never longer than the reply. When a `[` has a `]` after it, the text starts with `[` and ends with `]`. |
| GeminiService.StripFence | services/geminiService.ts:31 | The two `replace` calls never lengthen the text, and a text with neither an opening `json` fence nor a closing fence comes back unchanged. |
| GeminiService.GreedyMatchExists | services/geminiService.ts:27 | Whenever the regex can match, a greedy match exists: the leftmost `[` that has a `]` after it, through the last `]`. |
| GeminiService.GreedyMatchUnique | services/geminiService.ts:27 | The greedy match is unique: two greedy match spans of the same text are the same span. |
| GeminiService.CleanTakesGreedyMatch | services/geminiService.ts:27-30 | With a greedy match at (i, j), the result is exactly the substring from i through j, inclusive. |
| GeminiService.CleanBracketShape | services/geminiService.ts:27-30 | In the bracket case the result is a contiguous substring of the reply and still contains a `[`…`]` span. |
| GeminiService.CleanIdempotent | services/geminiService.ts:27-30 | Cleaning an already cleaned bracket-case text returns it unchanged. |
| GeminiService.CleanWithoutSpan | services/geminiService.ts:31 | Without a `[`…`]` span, the result is the trimmed reply with the fences stripped. |
| GeminiService.TrimOfPadded | services/geminiService.ts:31 | `trim()` removes exactly the whitespace padding around a text whose ends are not whitespace. |
| GeminiService.TrimStartOfPadded | services/geminiService.ts:31 | The `\s*` after the opening fence removes exactly the whitespace before the payload. |
| GeminiService.StripJsonFence | services/geminiService.ts:31 | The two `replace` calls turn a fenced block (an opening fence, whitespace, the payload, a closing fence) into the payload. |
| GeminiService.StripOpeningFenceOnly | services/geminiService.ts:31 | With only an opening fence, the first `replace` removes it with the whitespace after it and the second changes nothing, so the payload comes back. |
| GeminiService.StripClosingFenceOnly | services/geminiService.ts:31 | With only a closing fence, the first `replace` changes nothing and the second removes the fence at the end, so the text before it comes back. |
| GeminiService.FenceAddsNoBracket | services/geminiService.ts:27-31 | Whitespace and fence characters never add a `[`…`]` span to a payload that has none. |
| GeminiService.FencedReplyYieldsPayload | services/geminiService.ts:31 | A reply that is a whitespace-padded fenced `json` block with a bracket-free payload cleans to exactly that payload. |
| GeminiService.ToSource | services/geminiService.ts:94-96 | A chunk's source has a non-empty uri exactly when the chunk has a web entry whose uri is present and non-empty, and that uri is the chunk's. A present title is kept, and an absent web entry or title gives "". |
| GeminiService.SourcesWithUri | services/geminiService.ts:94-97 | There is one source per chunk with a non-empty uri, so never more sources than chunks. Every kept source has a non-empty uri, and every such chunk is kept. |
| GeminiService.SourcesKeepOrder | services/geminiService.ts:94-97 | The map and filter keep the chunks' order: extracting from two concatenated runs of chunks concatenates the two results. |
| GeminiService.SourceOfOneChunk | services/geminiService.ts:94-97 | A single chunk gives its mapped source (an absent uri or title becomes "") when the uri is non-empty, and nothing otherwise. |
| GeminiService.ExtractSources | services/geminiService.ts:93-97 | Absent grounding metadata gives no sources. Otherwise the sources are exactly those `SourcesWithUri` gives: one per chunk with a non-empty uri, in the chunks' order. |
| GeminiService.TextAttempt | services/geminiService.ts:38-60 | The `try` block returns only for a reply with text whose trimmed form is non-empty. It then returns the parse of that trimmed text and no sources. It always returns when that text parses. |
| GeminiService.TextCatch | services/geminiService.ts:61-64 | The text-mode catch never gives the invalid-format or the search error. |
| GeminiService.GenerateFromText | services/geminiService.ts:55-64 | Every failure, including the empty-reply error and a rejected call, is reported as the same generic text-mode error. The call succeeds exactly when the reply has text, the trimmed text is non-empty and it parses. A success carries the parse of the trimmed text and no sources. |
| GeminiService.SearchCatch | services/geminiService.ts:101-107 | A `SyntaxError` maps to the invalid-format error and nothing else does. The search catch never gives the text-mode error. |
| GeminiService.Message | services/geminiService.ts:61-107 | The catch blocks re-throw three messages, one per error. Their lengths differ pairwise, so no two errors share a message. |
| GeminiService.SearchAttempt | services/geminiService.ts:72-99 | The `try` block returns exactly when the reply has non-empty text whose cleaned form parses. It then returns that parse and the extracted sources. It ends in a `SyntaxError` exactly when the call itself threw one or the cleaned text does not parse. |
| GeminiService.GenerateFromSearch | services/geminiService.ts:86-107 | A failure is the invalid-format or the generic search error. It is invalid-format exactly when the call threw a `SyntaxError` or a non-empty reply's cleaned text fails to parse. The call succeeds exactly when the reply has non-empty text whose cleaned form parses, so an empty or absent text fails. A success returns the parse of the cleaned text and the extracted sources. |
| StudyView.ShuffleArray | components/StudyView.tsx:13-22 | The shuffle returns a permutation of its input: same length, same multiset. The random index stays in `[0, currentIndex)`, and the loop ends as `currentIndex` falls to 0. |
| StudyView.CardsToStudy | components/StudyView.tsx:31 | The filter keeps each card not rated easy as often as it occurs and drops every easy card. |
| StudyView.DeckSource | components/StudyView.tsx:31-32 | The session's cards are the unmastered cards when any exist, otherwise all cards. They are empty only for an empty list. |
| StudyView.ReinsertionIndex | components/StudyView.tsx:55-57 | A hard card goes back at `min(1, n)` and a medium card at `min(3, n)`, never past the end. |
| StudyView.RateDeck | components/StudyView.tsx:50-58 | Easy leaves the other cards, one fewer. Hard or medium keeps the length and holds the other cards plus the head card carrying its new rating, each as often as before. |
| StudyView.Rated | components/StudyView.tsx:44-66 | An empty deck is left as it was. Otherwise the new deck is `RateDeck` of the old one, so the head card is dropped or re-queued as `ReinsertPlacesCard` states. `initialDeckSize` never changes. Easy adds one to `masteredCount` and removes one card, and hard or medium keep both. The session is complete exactly when it was already, or the rating emptied a non-empty deck. |
| StudyView.InitializedIsValid | components/StudyView.tsx:30-38 | After initialization: the deck length plus the mastered count equals `initialDeckSize`, the deck has the size of the deck source, and the deck is empty only for no cards. |
| StudyView.AllMasteredFallsBackToAll | components/StudyView.tsx:31-35 | When every card is rated easy, the session is a permutation of all the cards. |
| StudyView.DeckHoldsUnmastered | components/StudyView.tsx:31-35 | Otherwise the deck holds each unmastered card as often as the list does, and no easy card. |
| StudyView.EasyRemovesHead | components/StudyView.tsx:50-53 | Rating easy drops the head card for good: the deck shrinks by one and, with distinct ids, that id is gone. |
| StudyView.ReinsertPlacesCard | components/StudyView.tsx:54-59 | Rating hard or medium keeps the deck length. The head card, with its new rating, goes to index `min(1, n)` or `min(3, n)`, and the other cards keep their order. |
| StudyView.RatedKeepsInvariant | components/StudyView.tsx:44-66 | Every rating preserves "deck length plus `masteredCount` equals `initialDeckSize`" and the completion flag's meaning. |
| StudyView.CompletionOnlyByEmptying | components/StudyView.tsx:44-66 | On an empty deck a rating changes nothing. Otherwise it completes the session exactly when it empties the deck, so only easy can complete it. |
| StudyView.EasyRunCompletes | components/StudyView.tsx:44-66 | Rating easy once per remaining card completes a session, with every card of the initial deck counted as mastered. |
| StudyView.ScreenOf | components/StudyView.tsx:68-110 | In a valid state the loading branch is unreachable. The "all mastered" screen appears exactly when `initialDeckSize` is 0, the summary exactly when the session is complete, and the study screen exactly when the deck is non-empty. The study screen shows the head card, and its figures are `masteredCount` (which equals `initialDeckSize` minus the deck length) out of `initialDeckSize`. The summary's figure equals `initialDeckSize`. |
| StudyView.AllMasteredScreenOnlyForNoCards | components/StudyView.tsx:68-77 | After initialization, the "all cards already mastered" screen appears exactly when the card list is empty. |
| StudyView.StudyView.constructor | components/StudyView.tsx:25-28 | The initial state is an empty deck with zero counters, not complete. |
| StudyView.StudyView.InitializeDeck | components/StudyView.tsx:30-38 | The deck becomes a permutation of the deck source, `initialDeckSize` its length, `masteredCount` 0 and `sessionComplete` false. |
| StudyView.StudyView.HandleRate | components/StudyView.tsx:44-66 | The new state is `Rated` of the old one, and the invariant holds. It reports the head card's id to `onRateCard`, or nothing on an empty deck. |
| StudyView.StudyView.CurrentScreen | components/StudyView.tsx:68-110 | The rendered screen is `ScreenOf` the component's state, so it is never the loading one. The summary shows exactly when `sessionComplete` is set, and the study screen shows the head card. Its progress equals `masteredCount` and its summary equals `initialDeckSize`. |
| App.RateCards | App.tsx:122-128 | Only the cards whose id matches take the new rating. Length, order, ids, questions and answers are kept, and all other cards are unchanged. |
| App.EditCards | App.tsx:156 | Only the edited card's question and answer change. Every id and rating is kept, and all other cards are unchanged. |
| App.WithState | App.tsx:92-96 | The generated pairs keep their order and text, each takes its fresh id, and none is rated. |
| App.NextIndex | App.tsx:132 | The next grid index wraps around: it is `i + 1` below the length, and 0 at the end. |
| App.FindCard | App.tsx:136 | The card found is the first one with that id. It is absent exactly when no card has that id. |
| App.FindSameShape | App.tsx:45-48 | The entry found is the first one with the working set's length and first card id. None means no entry has that shape. |
| App.ReplaceCards | App.tsx:51-53 | The `map` keeps the length and the session ids. Every entry with the matched id takes the working set as its cards, and every other entry is unchanged. |
| App.SyncHistory | App.tsx:44-56 | The sync keeps the length and the session ids, and each entry is either unchanged or the same session with the working set as its cards. |
| App.SyncReplacesFirstMatch | App.tsx:44-56 | With a non-empty working set, the first history entry of its shape (as `find` picks it) takes the working set, and every other entry is untouched. |
| App.SyncWithoutMatchIsIdentity | App.tsx:44-56 | With an empty working set, or with no entry of its shape, history is unchanged. |
| App.AppendedCardIsNotSynced | App.tsx:44-56 | A card appended to a list that matched its entry changes the list's length, so the sync no longer touches that entry. |
| App.GridRatingReachesHistory | App.tsx:44-56 | Rating a card of a list held in history, as the first entry of its shape, then syncing, rates it in that history entry. |
| App.RemoveSession | App.tsx:193 | Deleting removes exactly the sessions with that id. |
| App.RemoveSessionKeepsOrder | App.tsx:193 | Deleting keeps the remaining sessions in their order. |
| App.RemoveSessionPreservesDistinct | App.tsx:193 | Deleting keeps session ids distinct. |
| App.FindSession | App.tsx:173 | The session found is the first one with that id. It is absent exactly when no session has it. |
| App.SessionTitle | App.tsx:99-101 | The title is the query in search mode. In text mode it is the text when 40 characters or fewer, else its first 40 characters followed by "...". |
| App.RequestInput | App.tsx:77 | The original input is the pasted text in text mode and the search topic in search mode. |
| App.BlankIsEmptyTrim | App.tsx:79 | `IsBlank` holds exactly when `trim()` leaves nothing of the input. |
| App.Generate | App.tsx:85-90 | The dispatch calls the mode's generator. Text mode succeeds exactly when the trimmed reply is non-empty and parses; it yields no sources and only the text-mode error. Search mode succeeds exactly when the reply has non-empty text whose cleaned form parses, and never yields the text-mode error. |
| App.Outcome | App.tsx:77-90 | A blank input, and nothing else, gives the blank-input error for its mode. For any other input the result is the mode's generator's: it succeeds exactly when the generator does, with the same cards and sources, and otherwise fails with the generator's own error. So a search reply in an invalid format shows the invalid-format message. Text-mode failures are the generic text error, and a text-mode success carries no sources. |
| App.ErrorText | App.tsx:80 | A failed generation shows its own message, as `err.message` at line 116 does. The two blank-input texts are the short ones, one per mode. |
| App.ErrorTextInjective | App.tsx:79-116 | No two errors show the same text, so the error line tells the user which error occurred. |
| App.NewSessionKeepsHistoryWellFormed | App.tsx:103-112 | Prepending a session with a fresh id and distinct card ids keeps session ids distinct. |
| App.App.constructor | App.tsx:12-27 | The state hooks' initial values satisfy the invariant. |
| App.App.LoadHistory | App.tsx:30-40 | A stored history is adopted, an unreadable one gives an empty history, and nothing stored changes nothing. |
| App.App.SyncHistoryEffect | App.tsx:43-57 | History becomes `SyncHistory` of the old history and the working set, and the invariant holds. |
| App.App.HandleRateCard | App.tsx:122-128 | The working set becomes `RateCards` of the old one, and the invariant holds. |
| App.App.HandleNextCard | App.tsx:130-133 | Nothing happens on an empty list. Otherwise the index advances modulo the length and stays in range. |
| App.App.HandleOpenEditModal | App.tsx:135-141 | The form opens on the first card with that id. If there is none, nothing changes. |
| App.App.HandleOpenCreateModal | App.tsx:143-146 | The form opens with no card being edited. |
| App.App.HandleCloseModal | App.tsx:148-151 | The form closes and no card is being edited. |
| App.App.HandleSaveCard | App.tsx:153-170 | Saving an edit applies `EditCards`. Saving a new card appends one unrated card with the fresh id. Either way the form closes and the invariant holds. |
| App.App.ShowSession | App.tsx:175-188 | The working set, sources and mode become the session's. The index and error are reset and study mode is left. The input goes into the field of the session's mode, and the other field is cleared. |
| App.App.HandleLoadSession | App.tsx:172-190 | An unknown id changes nothing. A known id shows that session. |
| App.App.HandleDeleteSession | App.tsx:192-194 | History becomes `RemoveSession` of the old one, and the invariant holds. |
| App.App.ShowGenerated | App.tsx:92-112 | The generated cards, unrated and with fresh ids, become the working set. A session with the derived title is prepended to history. |
| App.App.HandleGenerate | App.tsx:67-120 | On a failure (a blank input or a failed generation), the error of `Outcome` is shown, the cards and sources are empty and history is unchanged. On success the generated set is shown and heads history. Either way the index is 0 and study mode is left. |
| App.App.RateInStudyViewAsRendered | App.tsx:196-204 | As the components are wired, a rating rates the card in the working set, syncs history and is followed by a new initialization on the new list. Afterwards the view is never complete, has zero mastered cards and a non-empty deck for a non-empty list. On an empty deck `handleRate` returns early, and the view, the working set and history stay as they were. |
| App.RatingThenReinitNeverCompletes | components/StudyView.tsx:30-42 | Initializing on the rated list always gives an incomplete session showing a card, with nothing mastered. |
| App.App.RateInStudyView | components/StudyView.tsx:44-66 | A study rating advances the view by exactly `Rated`, rates the card in the working set and syncs history. On an empty deck the working set and history stay as they were. |

## Left out

- The Gemini calls, prompts and response schema are a network API. The reply is an `ApiResponse` parameter: a rejected call carrying what it threw (a `SyntaxError` or any other error), or a reply whose text and grounding chunks may be absent.
- `JSON.parse` is a parameter `parse` that gives the parsed cards or fails, and a failure stands for a `SyntaxError`. Whether the parsed JSON really is an array of question/answer objects is not modelled.
- `localStorage` is not modelled. Reading it is the `StoredHistory` outcome passed to `LoadHistory`, and writing it back on every change is left out.
- App.App.LoadHistory: requires the stored history to have distinct ids, as the application itself writes it. The source does not check a stored history.
- `Math.random` is a nondeterministic choice of an index in `[0, currentIndex)`. The shuffle's uniformity is not modelled.
- `crypto.randomUUID` and `new Date().toISOString()` are parameters, with freshness preconditions on the ids.
- The progress-bar percentages are floating-point and are not modelled. The counters they are computed from are.
- React scheduling is not modelled: effect timing, batching and the `async` handler. Handlers and effects are sequential method calls, and `isLoading` and `numberOfCards` only affect the API call and the display.
- The mode-specific error text is `ErrorText` of an `AppError`. The generic message at App.tsx:116 is left out, because the service only throws `Error` values.
- App.App.HandleSaveCard: requires a non-blank question and answer, which the form checks before saving.
- Strings are sequences of characters, so UTF-16 code units and the 40-character cut inside a surrogate pair are not modelled.
- The `console.error` calls are output only and are not modelled. They sit in the service's two catch blocks (services/geminiService.ts:62 and 102), the history load and save (App.tsx:37 and 63) and handleGenerate's catch (App.tsx:115).
- The presentation components (grid, card flip, input panel, history panel, header) are not modelled.

## Findings

| source | as written | input that shows it | evidently intended | confidence | as-written member | corrected member |
|---|---|---|---|---|---|---|
| components/StudyView.tsx:30-42 | `initializeDeck` is memoized on `initialCards`, and an effect runs it whenever it changes. App passes its `flashcards` (App.tsx:200), and every rating replaces that array (App.tsx:122-128). So each rating in a study session re-initializes the deck. | A session over one unrated card: rating it easy empties the deck and sets `sessionComplete`. The re-run then finds every card mastered, falls back to all cards, and restores a one-card deck with `sessionComplete` false. | A session is initialized once. Rating every card easy reaches the completion screen and its "reviewed" figure. | not executed | App.App.RateInStudyViewAsRendered | App.App.RateInStudyView |
