/**
 * The application shell (App.tsx): the working set of cards, the history
 * of generated sessions and the handlers that replace them, the effect
 * that copies the working set back into its history entry, and the wiring
 * of the study view's ratings into the working set.
 *
 * Each handler's new value is a pure function below (a `map`, `filter`,
 * `find` or spread of the old value); the class App holds the state hooks
 * and its methods apply those functions.
 */
module App {
  import opened Types
  import GeminiService
  import StudyView

  // ---------------------------------------------------------------------------
  // Working-set transitions
  // ---------------------------------------------------------------------------

  /** handleRateCard's `map`: the cards with id `cardId` take the new rating. */
  function RateCards(cards: seq<FlashcardWithState>, cardId: string, d: CardDifficulty): (r: seq<FlashcardWithState>)
    ensures |r| == |cards|
    ensures Ids(r) == Ids(cards)
    ensures forall i :: 0 <= i < |cards| ==>
      r[i].question == cards[i].question && r[i].answer == cards[i].answer
    ensures forall i :: 0 <= i < |cards| && cards[i].id == cardId ==> r[i].difficulty == Some(d)
    ensures forall i :: 0 <= i < |cards| && cards[i].id != cardId ==> r[i] == cards[i]
  {
    seq(|cards|, i requires 0 <= i < |cards| =>
      if cards[i].id == cardId then cards[i].(difficulty := Some(d)) else cards[i])
  }

  /** handleSaveCard's edit `map`: only question and answer of the edited card change. */
  function EditCards(cards: seq<FlashcardWithState>, cardId: string, data: Flashcard): (r: seq<FlashcardWithState>)
    ensures |r| == |cards|
    ensures Ids(r) == Ids(cards)
    ensures forall i :: 0 <= i < |cards| ==> r[i].difficulty == cards[i].difficulty
    ensures forall i :: 0 <= i < |cards| && cards[i].id == cardId ==>
      r[i].question == data.question && r[i].answer == data.answer
    ensures forall i :: 0 <= i < |cards| && cards[i].id != cardId ==> r[i] == cards[i]
  {
    seq(|cards|, i requires 0 <= i < |cards| =>
      if cards[i].id == cardId then cards[i].(question := data.question, answer := data.answer) else cards[i])
  }

  /** A new card from a question/answer pair: a fresh id and no rating yet. */
  function NewCard(data: Flashcard, id: string): FlashcardWithState {
    FlashcardWithState(id, data.question, data.answer, None)
  }

  /** handleGenerate's `map` over the generated pairs, one fresh id per card. */
  function WithState(pairs: seq<Flashcard>, ids: seq<string>): (r: seq<FlashcardWithState>)
    requires |ids| == |pairs|
    ensures |r| == |pairs|
    ensures Ids(r) == ids
    ensures forall i :: 0 <= i < |r| ==> r[i].difficulty == None
    ensures forall i :: 0 <= i < |r| ==> r[i].question == pairs[i].question && r[i].answer == pairs[i].answer
  {
    seq(|pairs|, i requires 0 <= i < |pairs| => NewCard(pairs[i], ids[i]))
  }

  /** handleOpenEditModal's `flashcards.find(c => c.id === cardId)`. */
  function FindCard(cards: seq<FlashcardWithState>, cardId: string): (r: Option<FlashcardWithState>)
    ensures r.Some? ==> r.value in cards && r.value.id == cardId
    ensures r.None? <==> forall c :: c in cards ==> c.id != cardId
    ensures r.Some? ==> exists i :: 0 <= i < |cards| && cards[i] == r.value && NoCardBefore(cards, i, cardId)
  {
    if cards == [] then None
    else if cards[0].id == cardId then
      assert NoCardBefore(cards, 0, cardId);
      Some(cards[0])
    else
      assert forall c :: c in cards ==> c == cards[0] || c in cards[1..];
      var rest := FindCard(cards[1..], cardId);
      if rest.Some? then
        var i :| 0 <= i < |cards[1..]| && cards[1..][i] == rest.value && NoCardBefore(cards[1..], i, cardId);
        assert cards[i + 1] == rest.value;
        assert NoCardBefore(cards, i + 1, cardId) by {
          forall j | 0 <= j < i + 1 ensures cards[j].id != cardId {
            if j > 0 {
              assert cards[j] == cards[1..][j - 1];
            }
          }
        }
        rest
      else
        rest
  }

  /** No card before index `i` carries the id. */
  predicate NoCardBefore(cards: seq<FlashcardWithState>, i: nat, cardId: string)
    requires i <= |cards|
  {
    forall j :: 0 <= j < i ==> cards[j].id != cardId
  }

  /** handleNextCard's `(prev + 1) % flashcards.length`. */
  function NextIndex(i: nat, n: nat): (r: nat)
    requires n > 0
    ensures r < n
    ensures i + 1 < n ==> r == i + 1
    ensures i + 1 == n ==> r == 0
  {
    (i + 1) % n
  }

  // ---------------------------------------------------------------------------
  // History transitions
  // ---------------------------------------------------------------------------

  /** The shape test of the sync effect: same length and same first card id. */
  predicate SameShape(s: StudySession, cards: seq<FlashcardWithState>)
    requires cards != []
  {
    |s.flashcards| == |cards| && s.flashcards[0].id == cards[0].id
  }

  /** `history.find(...)` of the sync effect, as the index of the first entry of the same shape. */
  function FindSameShape(history: seq<StudySession>, cards: seq<FlashcardWithState>): (r: Option<nat>)
    requires cards != []
    ensures r.Some? ==> r.value < |history| && SameShape(history[r.value], cards)
    ensures r.Some? ==> forall j :: 0 <= j < r.value ==> !SameShape(history[j], cards)
    ensures r.None? ==> forall j :: 0 <= j < |history| ==> !SameShape(history[j], cards)
  {
    if history == [] then None
    else if SameShape(history[0], cards) then Some(0)
    else match FindSameShape(history[1..], cards)
      case None => None
      case Some(k) => Some(k + 1)
  }

  /** The `map` that puts `cards` into every entry carrying the session id `id`. */
  function ReplaceCards(history: seq<StudySession>, id: string, cards: seq<FlashcardWithState>): (r: seq<StudySession>)
    ensures |r| == |history| && SessionIds(r) == SessionIds(history)
    ensures forall i :: 0 <= i < |history| && history[i].id != id ==> r[i] == history[i]
    ensures forall i :: 0 <= i < |history| && history[i].id == id ==> r[i] == history[i].(flashcards := cards)
  {
    seq(|history|, i requires 0 <= i < |history| =>
      if history[i].id == id then history[i].(flashcards := cards) else history[i])
  }

  /** The history-sync effect (App.tsx:43-57) as a function of the history and the working set. */
  function SyncHistory(history: seq<StudySession>, cards: seq<FlashcardWithState>): (r: seq<StudySession>)
    ensures |r| == |history| && SessionIds(r) == SessionIds(history)
    ensures forall i :: 0 <= i < |history| ==> r[i] == history[i] || r[i] == history[i].(flashcards := cards)
  {
    if cards == [] then history
    else match FindSameShape(history, cards)
      case None => history
      case Some(k) => ReplaceCards(history, history[k].id, cards)
  }

  /**
   * When an entry of the same shape exists, the first one takes the working
   * set and, with distinct session ids, every other entry stays as it was.
   */
  lemma SyncReplacesFirstMatch(history: seq<StudySession>, cards: seq<FlashcardWithState>, k: nat)
    requires DistinctSessionIds(history)
    requires cards != [] && k < |history| && SameShape(history[k], cards)
    requires forall j :: 0 <= j < k ==> !SameShape(history[j], cards)
    ensures var r := SyncHistory(history, cards);
      && |r| == |history|
      && r[k] == history[k].(flashcards := cards)
      && forall i :: 0 <= i < |history| && i != k ==> r[i] == history[i]
  {
    var f := FindSameShape(history, cards);
    assert f == Some(k);
  }

  /** Without an entry of the same shape, or with an empty working set, history is unchanged. */
  lemma SyncWithoutMatchIsIdentity(history: seq<StudySession>, cards: seq<FlashcardWithState>)
    requires cards == [] || forall j :: 0 <= j < |history| ==> !SameShape(history[j], cards)
    ensures SyncHistory(history, cards) == history
  {
  }

  /**
   * A card appended to a list that matched its history entry makes the
   * list longer, so the sync no longer finds that entry: unless another
   * entry happens to have the new shape, history does not receive the card.
   */
  lemma AppendedCardIsNotSynced(history: seq<StudySession>, cards: seq<FlashcardWithState>, c: FlashcardWithState)
    requires cards != []
    requires forall j :: 0 <= j < |history| && history[j].flashcards != [] && history[j].flashcards[0].id == cards[0].id
               ==> |history[j].flashcards| == |cards|
    ensures SyncHistory(history, cards + [c]) == history
  {
    var grown := cards + [c];
    assert grown[0] == cards[0];
  }

  /**
   * A rating made in the grid reaches history: rating a card of a list
   * that is (the first entry of its shape in) history, then syncing,
   * rates the card in that entry too.
   */
  lemma GridRatingReachesHistory(history: seq<StudySession>, k: nat, cardId: string, d: CardDifficulty)
    requires DistinctSessionIds(history)
    requires k < |history| && history[k].flashcards != []
    requires forall j :: 0 <= j < k ==> !SameShape(history[j], history[k].flashcards)
    ensures var r := SyncHistory(history, RateCards(history[k].flashcards, cardId, d));
      && |r| == |history|
      && r[k].flashcards == RateCards(history[k].flashcards, cardId, d)
      && forall i :: 0 <= i < |history| && i != k ==> r[i] == history[i]
  {
    var cards := history[k].flashcards;
    var rated := RateCards(cards, cardId, d);
    assert rated[0].id == cards[0].id;
    forall j | 0 <= j < k
      ensures !SameShape(history[j], rated)
    {
      assert !SameShape(history[j], cards);
    }
    SyncReplacesFirstMatch(history, rated, k);
  }

  /** handleDeleteSession's `filter`. */
  function RemoveSession(history: seq<StudySession>, sessionId: string): (r: seq<StudySession>)
    ensures |r| <= |history|
    ensures forall s :: s in r ==> s in history && s.id != sessionId
    ensures forall s :: s in history && s.id != sessionId ==> s in r
  {
    if history == [] then []
    else
      var rest := RemoveSession(history[1..], sessionId);
      assert forall s :: s in history[1..] ==> s in history;
      if history[0].id == sessionId then rest else [history[0]] + rest
  }

  /** Deleting keeps the other sessions in their order: the filter distributes over concatenation. */
  lemma {:induction false} RemoveSessionKeepsOrder(a: seq<StudySession>, b: seq<StudySession>, sessionId: string)
    ensures RemoveSession(a + b, sessionId) == RemoveSession(a, sessionId) + RemoveSession(b, sessionId)
  {
    if a != [] {
      assert (a + b)[1..] == a[1..] + b;
      RemoveSessionKeepsOrder(a[1..], b, sessionId);
    } else {
      assert a + b == b;
    }
  }

  /** handleLoadSession's `history.find(s => s.id === sessionId)`. */
  function FindSession(history: seq<StudySession>, sessionId: string): (r: Option<StudySession>)
    ensures r.Some? ==> r.value in history && r.value.id == sessionId
    ensures r.None? <==> forall s :: s in history ==> s.id != sessionId
    ensures r.Some? ==> exists i :: 0 <= i < |history| && history[i] == r.value && NoSessionBefore(history, i, sessionId)
  {
    if history == [] then None
    else if history[0].id == sessionId then
      assert NoSessionBefore(history, 0, sessionId);
      Some(history[0])
    else
      assert forall s :: s in history ==> s == history[0] || s in history[1..];
      var rest := FindSession(history[1..], sessionId);
      if rest.Some? then
        var i :| 0 <= i < |history[1..]| && history[1..][i] == rest.value && NoSessionBefore(history[1..], i, sessionId);
        assert history[i + 1] == rest.value;
        assert NoSessionBefore(history, i + 1, sessionId) by {
          forall j | 0 <= j < i + 1 ensures history[j].id != sessionId {
            if j > 0 {
              assert history[j] == history[1..][j - 1];
            }
          }
        }
        rest
      else
        rest
  }

  /** No session before index `i` carries the id. */
  predicate NoSessionBefore(history: seq<StudySession>, i: nat, sessionId: string)
    requires i <= |history|
  {
    forall j :: 0 <= j < i ==> history[j].id != sessionId
  }

  // ---------------------------------------------------------------------------
  // Generation (App.tsx:67-120)
  // ---------------------------------------------------------------------------

  /** `!s.trim()`: nothing but whitespace. */
  predicate IsBlank(s: string) {
    GeminiService.AllWhitespace(s)
  }

  /** An input is blank exactly when `trim()` leaves nothing of it. */
  lemma BlankIsEmptyTrim(s: string)
    ensures IsBlank(s) <==> GeminiService.Trim(s) == ""
  {
  }

  /**
   * The error line under the input panel: a blank input in a mode, or a
   * failed generation. Its displayed text is ErrorText.
   */
  datatype AppError = BlankInput(mode: GenerationMode) | GenerationFailed(cause: GeminiService.GenerationError)

  /** The French text shown for an error. */
  function ErrorText(e: AppError): (t: string)
    ensures e.GenerationFailed? ==> t == GeminiService.Message(e.cause)
    ensures e.BlankInput? ==> |t| < 40 && (|t| == 36 <==> e.mode == Text)
  {
    match e
    case BlankInput(Text) => BlankTextMessage
    case BlankInput(Search) => BlankSearchMessage
    case GenerationFailed(cause) => GeminiService.Message(cause)
  }

  const BlankTextMessage: string := "Veuillez entrer du texte à analyser."
  const BlankSearchMessage: string := "Veuillez entrer un sujet de recherche."

  /** The user can tell the errors apart: no two errors show the same text. */
  lemma ErrorTextInjective(e1: AppError, e2: AppError)
    requires ErrorText(e1) == ErrorText(e2)
    ensures e1 == e2
  {
    assert |ErrorText(e1)| == |ErrorText(e2)|;
  }

  /** The title of a new session: the query, or the text cut to 40 characters with "..." when longer. */
  function SessionTitle(mode: GenerationMode, inputText: string, searchQuery: string): (t: string)
    ensures mode == Search ==> t == searchQuery
    ensures mode == Text ==> |t| == (if |inputText| > 40 then 43 else |inputText|)
    ensures mode == Text && |inputText| <= 40 ==> t == inputText
    ensures mode == Text && |inputText| > 40 ==> t[..40] == inputText[..40] && t[40..] == "..."
  {
    if mode == Search then searchQuery
    else
      inputText[..Min(40, |inputText|)] + (if |inputText| > 40 then "..." else "")
  }

  /** The text a generation starts from: the pasted text or the search topic. */
  function RequestInput(mode: GenerationMode, inputText: string, searchQuery: string): (r: string)
    ensures mode == Text ==> r == inputText
    ensures mode == Search ==> r == searchQuery
  {
    if mode == Text then inputText else searchQuery
  }

  /** The generator for a mode, as handleGenerate dispatches it (App.tsx:85-90). */
  function Generate(
    mode: GenerationMode, response: GeminiService.ApiResponse, parse: string -> Option<seq<Flashcard>>): (r: Result<GeminiService.Generated, GeminiService.GenerationError>)
    ensures mode == Text ==> r == GeminiService.GenerateFromText(response, parse)
    ensures mode == Search ==> r == GeminiService.GenerateFromSearch(response, parse)
    ensures mode == Text ==> (r.Success? <==> GeminiService.TextReplyParses(response, parse))
    ensures mode == Search ==> (r.Success? <==> GeminiService.ParsableReply(response, parse))
    ensures mode == Text && r.Success? ==> r.value.sources == []
    ensures mode == Text && r.Failure? ==> r.error == GeminiService.TextGenerationFailed
    ensures mode == Search && r.Failure? ==> r.error != GeminiService.TextGenerationFailed
  {
    if mode == Text then GeminiService.GenerateFromText(response, parse)
    else GeminiService.GenerateFromSearch(response, parse)
  }

  /**
   * What handleGenerate ends with: the generated cards and sources, or the
   * error it shows. A blank input is refused before the service is asked;
   * otherwise the mode's generator decides.
   */
  function Outcome(
    mode: GenerationMode, inputText: string, searchQuery: string,
    response: GeminiService.ApiResponse, parse: string -> Option<seq<Flashcard>>): (r: Result<GeminiService.Generated, AppError>)
    ensures r.Failure? && r.error.BlankInput? <==> IsBlank(RequestInput(mode, inputText, searchQuery))
    ensures r.Failure? && r.error.BlankInput? ==> r.error.mode == mode
    ensures mode == Text && r.Failure? && r.error.GenerationFailed? ==>
      r.error.cause == GeminiService.TextGenerationFailed
    ensures mode == Search && r.Failure? && r.error.GenerationFailed? ==>
      r.error.cause != GeminiService.TextGenerationFailed
    ensures mode == Text && r.Success? ==> r.value.sources == []
    ensures !IsBlank(RequestInput(mode, inputText, searchQuery)) ==>
      (r.Success? <==> Generate(mode, response, parse).Success?)
    ensures r.Success? ==> r.value == Generate(mode, response, parse).value
    ensures !IsBlank(RequestInput(mode, inputText, searchQuery)) && r.Failure? ==>
      r.error == GenerationFailed(Generate(mode, response, parse).error)
  {
    if IsBlank(RequestInput(mode, inputText, searchQuery)) then Failure(BlankInput(mode))
    else match Generate(mode, response, parse)
      case Failure(e) => Failure(GenerationFailed(e))
      case Success(g) => Success(g)
  }

  /** The stored form of the history as the startup effect finds it. */
  datatype StoredHistory = NothingStored | Unreadable | Stored(sessions: seq<StudySession>)

  /** The history invariant the handlers keep. */
  predicate HistoryWellFormed(history: seq<StudySession>) {
    && DistinctSessionIds(history)
    && forall s :: s in history ==> DistinctIds(s.flashcards)
  }

  // ---------------------------------------------------------------------------
  // The component
  // ---------------------------------------------------------------------------

  class App {
    var mode: GenerationMode
    var inputText: string
    var searchQuery: string
    var flashcards: seq<FlashcardWithState>
    var sources: seq<Source>
    var error: Option<AppError>
    var currentCardIndex: nat
    var isModalOpen: bool
    var editingCard: Option<FlashcardWithState>
    var history: seq<StudySession>
    var isStudying: bool

    /**
     * The shown card index is in range (0 for an empty list), card ids are
     * unique in the working set and in each session, and session ids are
     * unique in history.
     */
    predicate Valid()
      reads this
    {
      && (flashcards == [] ==> currentCardIndex == 0)
      && (flashcards != [] ==> currentCardIndex < |flashcards|)
      && DistinctIds(flashcards)
      && HistoryWellFormed(history)
    }

    /** The state hooks' initial values. */
    constructor ()
      ensures Valid()
      ensures mode == Text && inputText == "" && searchQuery == ""
      ensures flashcards == [] && sources == [] && error == None && currentCardIndex == 0
      ensures !isModalOpen && editingCard == None && history == [] && !isStudying
    {
      mode := Text;
      inputText := "";
      searchQuery := "";
      flashcards := [];
      sources := [];
      error := None;
      currentCardIndex := 0;
      isModalOpen := false;
      editingCard := None;
      history := [];
      isStudying := false;
    }

    /** The startup effect: a stored history is adopted, an unreadable one gives an empty history. */
    method LoadHistory(stored: StoredHistory)
      requires Valid()
      requires stored.Stored? ==> HistoryWellFormed(stored.sessions)
      modifies this`history
      ensures Valid()
      ensures stored.NothingStored? ==> history == old(history)
      ensures stored.Unreadable? ==> history == []
      ensures stored.Stored? ==> history == stored.sessions
    {
      match stored
      case NothingStored =>
      case Unreadable => history := [];
      case Stored(sessions) => history := sessions;
    }

    /** The sync effect, run after the working set changes. */
    method SyncHistoryEffect()
      requires Valid()
      modifies this`history
      ensures Valid()
      ensures history == SyncHistory(old(history), flashcards)
    {
      if |flashcards| > 0 {
        var found := FindSameShape(history, flashcards);
        if found.Some? {
          history := ReplaceCards(history, history[found.value].id, flashcards);
          assert forall s :: s in history ==> s in old(history) || s.flashcards == flashcards;
        }
      }
    }

    method HandleRateCard(cardId: string, difficulty: CardDifficulty)
      requires Valid()
      modifies this`flashcards
      ensures Valid()
      ensures flashcards == RateCards(old(flashcards), cardId, difficulty)
    {
      flashcards := RateCards(flashcards, cardId, difficulty);
    }

    method HandleNextCard()
      requires Valid()
      modifies this`currentCardIndex
      ensures Valid()
      ensures flashcards == [] ==> currentCardIndex == old(currentCardIndex)
      ensures flashcards != [] ==> currentCardIndex == NextIndex(old(currentCardIndex), |flashcards|)
    {
      if |flashcards| == 0 {
        return;
      }
      currentCardIndex := (currentCardIndex + 1) % |flashcards|;
    }

    /** Opens the form on the card with that id, if there is one. */
    method HandleOpenEditModal(cardId: string)
      requires Valid()
      modifies this`editingCard, this`isModalOpen
      ensures Valid()
      ensures FindCard(flashcards, cardId).None? ==>
        editingCard == old(editingCard) && isModalOpen == old(isModalOpen)
      ensures FindCard(flashcards, cardId).Some? ==>
        isModalOpen && editingCard == FindCard(flashcards, cardId)
    {
      var card := FindCard(flashcards, cardId);
      if card.Some? {
        editingCard := card;
        isModalOpen := true;
      }
    }

    method HandleOpenCreateModal()
      modifies this`editingCard, this`isModalOpen
      ensures editingCard == None && isModalOpen
    {
      editingCard := None;
      isModalOpen := true;
    }

    method HandleCloseModal()
      modifies this`editingCard, this`isModalOpen
      ensures editingCard == None && !isModalOpen
    {
      isModalOpen := false;
      editingCard := None;
    }

    /**
     * handleSaveCard: edits the open card, or appends a new unrated card
     * with the fresh id `newId`; then closes the form. The form only
     * submits a question and an answer that are not blank.
     */
    method HandleSaveCard(cardData: Flashcard, newId: string)
      requires Valid()
      requires !IsBlank(cardData.question) && !IsBlank(cardData.answer)
      requires editingCard.None? ==> newId !in Ids(flashcards)
      modifies this`flashcards, this`currentCardIndex, this`editingCard, this`isModalOpen
      ensures Valid()
      ensures old(editingCard).Some? ==> flashcards == EditCards(old(flashcards), old(editingCard).value.id, cardData)
      ensures old(editingCard).None? ==> flashcards == old(flashcards) + [NewCard(cardData, newId)]
      ensures currentCardIndex == old(currentCardIndex)
      ensures editingCard == None && !isModalOpen
    {
      if editingCard.Some? {
        flashcards := EditCards(flashcards, editingCard.value.id, cardData);
      } else {
        var newCard := NewCard(cardData, newId);
        var wasEmpty := |flashcards| == 0;
        assert forall j :: 0 <= j < |flashcards| ==> flashcards[j].id == Ids(flashcards)[j];
        flashcards := flashcards + [newCard];
        if wasEmpty {
          currentCardIndex := 0;
        }
      }
      HandleCloseModal();
    }

    /** Shows a stored session: its cards, sources, mode and input, from the first card, not studying. */
    method ShowSession(s: StudySession)
      requires Valid() && s in history
      modifies this`isStudying, this`flashcards, this`sources, this`currentCardIndex, this`error,
        this`mode, this`inputText, this`searchQuery
      ensures Valid()
      ensures flashcards == s.flashcards && sources == s.sources && mode == s.mode
      ensures currentCardIndex == 0 && error == None && !isStudying
      ensures inputText == (if s.mode == Text then s.originalInput else "")
      ensures searchQuery == (if s.mode == Search then s.originalInput else "")
    {
      isStudying := false;
      flashcards := s.flashcards;
      sources := s.sources;
      currentCardIndex := 0;
      error := None;
      mode := s.mode;
      if s.mode == Text {
        inputText := s.originalInput;
        searchQuery := "";
      } else {
        searchQuery := s.originalInput;
        inputText := "";
      }
    }

    /** handleLoadSession: an unknown id changes nothing. */
    method HandleLoadSession(sessionId: string)
      requires Valid()
      modifies this`isStudying, this`flashcards, this`sources, this`currentCardIndex, this`error,
        this`mode, this`inputText, this`searchQuery
      ensures Valid()
      ensures FindSession(history, sessionId).None? ==>
        && flashcards == old(flashcards) && sources == old(sources) && mode == old(mode)
        && inputText == old(inputText) && searchQuery == old(searchQuery)
        && currentCardIndex == old(currentCardIndex) && error == old(error)
        && isStudying == old(isStudying)
      ensures FindSession(history, sessionId).Some? ==>
        var s := FindSession(history, sessionId).value;
        && flashcards == s.flashcards && sources == s.sources && mode == s.mode
        && currentCardIndex == 0 && error == None && !isStudying
        && inputText == (if s.mode == Text then s.originalInput else "")
        && searchQuery == (if s.mode == Search then s.originalInput else "")
    {
      var session := FindSession(history, sessionId);
      if session.Some? {
        ShowSession(session.value);
      }
    }

    method HandleDeleteSession(sessionId: string)
      requires Valid()
      modifies this`history
      ensures Valid()
      ensures history == RemoveSession(old(history), sessionId)
    {
      history := RemoveSession(history, sessionId);
      forall i, j | 0 <= i < j < |history|
        ensures history[i].id != history[j].id
      {
        RemoveSessionPreservesDistinct(old(history), sessionId);
      }
    }

    /** The text the current mode generates from. */
    function OriginalInput(): string
      reads this
    {
      RequestInput(mode, inputText, searchQuery)
    }

    /**
     * The success path of handleGenerate: the generated cards, unrated and
     * with fresh ids, become the working set and head a new history entry.
     */
    method ShowGenerated(g: GeminiService.Generated, cardIds: seq<string>, sessionId: string, createdAt: string)
      requires Valid() && flashcards == []
      requires Distinct(cardIds) && |cardIds| == |g.flashcards|
      requires sessionId !in SessionIds(history)
      modifies this`flashcards, this`sources, this`history
      ensures Valid()
      ensures flashcards == WithState(g.flashcards, cardIds)
      ensures sources == g.sources
      ensures history == [StudySession(sessionId, SessionTitle(mode, inputText, searchQuery), createdAt,
                                       flashcards, g.sources, mode, OriginalInput())] + old(history)
    {
      sources := g.sources;
      var cardsWithState := WithState(g.flashcards, cardIds);
      flashcards := cardsWithState;
      var sessionTitle := SessionTitle(mode, inputText, searchQuery);
      var originalInput := RequestInput(mode, inputText, searchQuery);
      var newSession := StudySession(sessionId, sessionTitle, createdAt, cardsWithState,
                                     g.sources, mode, originalInput);
      NewSessionKeepsHistoryWellFormed(history, newSession);
      history := [newSession] + history;
    }

    /**
     * handleGenerate, with the service's reply, the JSON parser, the fresh
     * card ids, the fresh session id and the timestamp supplied by the
     * caller. A blank input or a failed generation leaves history alone.
     */
    method HandleGenerate(
      response: GeminiService.ApiResponse,
      parse: string -> Option<seq<Flashcard>>,
      cardIds: seq<string>,
      sessionId: string,
      createdAt: string)
      requires Valid()
      requires Distinct(cardIds)
      requires sessionId !in SessionIds(history)
      requires Outcome(mode, inputText, searchQuery, response, parse).Success? ==>
        |cardIds| == |Outcome(mode, inputText, searchQuery, response, parse).value.flashcards|
      modifies this`flashcards, this`sources, this`error, this`currentCardIndex, this`isStudying, this`history
      ensures Valid()
      ensures currentCardIndex == 0 && !isStudying
      ensures var o := Outcome(mode, inputText, searchQuery, response, parse);
        if o.Failure? then
          error == Some(o.error) && flashcards == [] && sources == [] && history == old(history)
        else
          && error == None
          && flashcards == WithState(o.value.flashcards, cardIds)
          && sources == o.value.sources
          && history == [StudySession(sessionId, SessionTitle(mode, inputText, searchQuery), createdAt,
                                      flashcards, o.value.sources, mode, OriginalInput())] + old(history)
    {
      error := None;
      flashcards := [];
      sources := [];
      currentCardIndex := 0;
      isStudying := false;
      var outcome := Outcome(mode, inputText, searchQuery, response, parse);
      if outcome.Failure? {
        error := Some(outcome.error);
      } else {
        ShowGenerated(outcome.value, cardIds, sessionId, createdAt);
      }
    }

    /**
     * A rating made in the study view, as the code wires it: the view rates
     * its head card, the rating is applied to the working set and synced
     * into history, and, because the working set is a new list, the view's
     * initialization runs again on it. On an empty deck handleRate returns
     * before calling `onRateCard`, so nothing else happens.
     */
    method RateInStudyViewAsRendered(view: StudyView.StudyView, difficulty: CardDifficulty)
      requires Valid() && view.Valid()
      modifies this`flashcards, this`history, view
      ensures Valid() && view.Valid()
      ensures |flashcards| == |old(flashcards)|
      ensures old(view.studyDeck) == [] ==>
        view.State() == old(view.State()) && flashcards == old(flashcards) && history == old(history)
      ensures old(view.studyDeck) != [] ==> StudyView.Initialized(flashcards, view.State())
      ensures old(view.studyDeck) != [] ==> !view.sessionComplete && view.masteredCount == 0
      ensures old(view.studyDeck) != [] && old(flashcards) != [] ==> view.studyDeck != []
      ensures old(view.studyDeck) != [] ==>
        flashcards == RateCards(old(flashcards), old(view.studyDeck)[0].id, difficulty)
      ensures old(view.studyDeck) != [] ==> history == SyncHistory(old(history), flashcards)
    {
      var ratedId := view.HandleRate(difficulty);
      if ratedId.None? {
        return;
      }
      HandleRateCard(ratedId.value, difficulty);
      SyncHistoryEffect();
      view.InitializeDeck(flashcards);
      StudyView.InitializedIsValid(flashcards, view.State());
    }

    /**
     * The same rating with the view's deck left alone, as the completion
     * screen and its counters expect: the view advances by one rating, and
     * the working set and history change only when a card was rated.
     */
    method RateInStudyView(view: StudyView.StudyView, difficulty: CardDifficulty)
      requires Valid() && view.Valid()
      modifies this`flashcards, this`history, view
      ensures Valid() && view.Valid()
      ensures view.State() == StudyView.Rated(old(view.State()), difficulty)
      ensures old(view.studyDeck) == [] ==> flashcards == old(flashcards)
      ensures old(view.studyDeck) != [] ==>
        flashcards == RateCards(old(flashcards), old(view.studyDeck)[0].id, difficulty)
      ensures history == if old(view.studyDeck) == [] then old(history) else SyncHistory(old(history), flashcards)
    {
      var ratedId := view.HandleRate(difficulty);
      if ratedId.None? {
        return;
      }
      HandleRateCard(ratedId.value, difficulty);
      SyncHistoryEffect();
    }
  }

  /** Prepending a session with a fresh id and distinct card ids keeps history well formed. */
  lemma NewSessionKeepsHistoryWellFormed(history: seq<StudySession>, s: StudySession)
    requires HistoryWellFormed(history)
    requires s.id !in SessionIds(history) && DistinctIds(s.flashcards)
    ensures HistoryWellFormed([s] + history)
  {
    assert forall j :: 0 <= j < |history| ==> history[j].id == SessionIds(history)[j];
  }

  /** Filtering a history whose ids are distinct keeps them distinct. */
  lemma {:induction false} RemoveSessionPreservesDistinct(history: seq<StudySession>, sessionId: string)
    requires DistinctSessionIds(history)
    ensures DistinctSessionIds(RemoveSession(history, sessionId))
  {
    if history != [] {
      RemoveSessionPreservesDistinct(history[1..], sessionId);
      var rest := RemoveSession(history[1..], sessionId);
      forall s | s in rest ensures s.id != history[0].id {
        var k :| 0 <= k < |history[1..]| && history[1..][k] == s;
        assert history[k + 1] == s;
      }
    }
  }

  /**
   * The re-initialization after each rating never lets a study session end:
   * whatever was rated, the view comes back with a non-empty deck, zero
   * mastered cards and no completion, so its completion screen is never
   * reached while the card list is non-empty.
   */
  lemma RatingThenReinitNeverCompletes(cards: seq<FlashcardWithState>, cardId: string, d: CardDifficulty, q: StudyView.QueueState)
    requires cards != []
    requires StudyView.Initialized(RateCards(cards, cardId, d), q)
    ensures !q.complete && q.deck != [] && q.mastered == 0
    ensures StudyView.ScreenOf(q).Studying?
  {
    StudyView.InitializedIsValid(RateCards(cards, cardId, d), q);
  }
}
