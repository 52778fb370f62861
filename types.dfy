/**
 * The value types shared by the whole application: cards, difficulties,
 * citation sources, generation modes and stored study sessions
 * (types.ts), plus the Option and Result wrappers used for nullable
 * fields and for failures.
 */
module Types {

  /** A nullable value (`T | null` or an optional property). */
  datatype Option<+T> = None | Some(value: T)

  /** A computation that either yields a value or fails with an error. */
  datatype Result<+T, +E> = Success(value: T) | Failure(error: E)

  /** The three ratings a learner can give a card. */
  datatype CardDifficulty = Hard | Medium | Easy

  /** A bare question/answer pair, as the generator and the edit form produce it. */
  datatype Flashcard = Flashcard(question: string, answer: string)

  /** A card of the working set: a pair with an identity and a rating (null until rated). */
  datatype FlashcardWithState = FlashcardWithState(
    id: string,
    question: string,
    answer: string,
    difficulty: Option<CardDifficulty>)

  /** A web page cited by a search-mode generation. */
  datatype Source = Source(uri: string, title: string)

  datatype GenerationMode = Text | Search

  /** One generation, as kept in the history list. */
  datatype StudySession = StudySession(
    id: string,
    title: string,
    createdAt: string,
    flashcards: seq<FlashcardWithState>,
    sources: seq<Source>,
    mode: GenerationMode,
    originalInput: string)

  /** `Math.min` on lengths and indices. */
  function Min(a: nat, b: nat): nat {
    if a <= b then a else b
  }

  /** The ids of a card list, in order. */
  function Ids(cards: seq<FlashcardWithState>): (r: seq<string>)
    ensures |r| == |cards|
    ensures forall i :: 0 <= i < |cards| ==> r[i] == cards[i].id
  {
    seq(|cards|, i requires 0 <= i < |cards| => cards[i].id)
  }

  /** No two cards of the list share an id. */
  predicate DistinctIds(cards: seq<FlashcardWithState>) {
    forall i, j :: 0 <= i < j < |cards| ==> cards[i].id != cards[j].id
  }

  /** The ids of a history list, in order. */
  function SessionIds(history: seq<StudySession>): (r: seq<string>)
    ensures |r| == |history|
    ensures forall i :: 0 <= i < |history| ==> r[i] == history[i].id
  {
    seq(|history|, i requires 0 <= i < |history| => history[i].id)
  }

  /** No two sessions of the list share an id. */
  predicate DistinctSessionIds(history: seq<StudySession>) {
    forall i, j :: 0 <= i < j < |history| ==> history[i].id != history[j].id
  }

  /** No two strings of the list are equal. */
  predicate Distinct(xs: seq<string>) {
    forall i, j :: 0 <= i < j < |xs| ==> xs[i] != xs[j]
  }
}
