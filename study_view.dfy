/**
 * The study-queue engine of the study view (components/StudyView.tsx):
 * a shuffled deck of the cards still to learn, where rating the head card
 * `easy` retires it and any other rating puts a copy back a few places
 * further on, until the deck runs out.
 *
 * QueueState and the functions over it are the specification; the class
 * StudyView holds the component's four state fields and its methods are
 * proved against those functions.
 */
module StudyView {
  import opened Types

  // ---------------------------------------------------------------------------
  // shuffleArray (components/StudyView.tsx:12-22)
  // ---------------------------------------------------------------------------

  /**
   * Fisher-Yates pass over a copy of `items`. `Math.random()` is not
   * modelled: each step picks an arbitrary index below `currentIndex`.
   */
  method ShuffleArray<T>(items: seq<T>) returns (shuffled: seq<T>)
    ensures |shuffled| == |items|
    ensures multiset(shuffled) == multiset(items)
  {
    var newArray := new T[|items|](i requires 0 <= i < |items| => items[i]);
    assert newArray[..] == items;
    var currentIndex := newArray.Length;
    while currentIndex != 0
      invariant 0 <= currentIndex <= newArray.Length
      invariant multiset(newArray[..]) == multiset(items)
      decreases currentIndex
    {
      var randomIndex :| 0 <= randomIndex < currentIndex;
      currentIndex := currentIndex - 1;
      newArray[currentIndex], newArray[randomIndex] := newArray[randomIndex], newArray[currentIndex];
    }
    shuffled := newArray[..];
  }

  // ---------------------------------------------------------------------------
  // The queue as a value
  // ---------------------------------------------------------------------------

  /** The component state: studyDeck, masteredCount, initialDeckSize and sessionComplete. */
  datatype QueueState = QueueState(
    deck: seq<FlashcardWithState>,
    mastered: nat,
    initialSize: nat,
    complete: bool)

  /**
   * What every reachable state satisfies: each card of the initial deck is
   * either still queued or counted as mastered, and the session is complete
   * exactly when a non-empty deck has run out.
   */
  predicate QueueInvariant(q: QueueState) {
    && |q.deck| + q.mastered == q.initialSize
    && (q.complete ==> q.deck == [] && q.initialSize > 0)
    && (q.deck == [] && q.initialSize > 0 ==> q.complete)
  }

  predicate IsMastered(c: FlashcardWithState) {
    c.difficulty == Some(Easy)
  }

  /** `initialCards.filter(c => c.difficulty !== 'easy')`. */
  function CardsToStudy(cards: seq<FlashcardWithState>): (r: seq<FlashcardWithState>)
    ensures |r| <= |cards|
    ensures forall c :: multiset(r)[c] == if IsMastered(c) then 0 else multiset(cards)[c]
    ensures forall c :: c in r ==> c in cards && !IsMastered(c)
  {
    if cards == [] then []
    else
      var rest := CardsToStudy(cards[1..]);
      assert cards == [cards[0]] + cards[1..];
      if IsMastered(cards[0]) then rest else [cards[0]] + rest
  }

  /**
   * The cards a study session draws from: the unmastered ones, or all of
   * them when every card is already mastered.
   */
  function DeckSource(cards: seq<FlashcardWithState>): (r: seq<FlashcardWithState>)
    ensures r == [] <==> cards == []
    ensures multiset(r) <= multiset(cards)
    ensures (exists c :: c in cards && !IsMastered(c)) ==> r == CardsToStudy(cards)
    ensures (forall c :: c in cards ==> IsMastered(c)) ==> r == cards
  {
    var cardsToStudy := CardsToStudy(cards);
    assert |cardsToStudy| > 0 ==> cardsToStudy[0] in cardsToStudy;
    assert forall c :: c in cards && !IsMastered(c) ==> c in multiset(cardsToStudy);
    if |cardsToStudy| > 0 then cardsToStudy else cards
  }

  /** What initializeDeck leaves behind: a permutation of the deck source and fresh counters. */
  predicate Initialized(cards: seq<FlashcardWithState>, q: QueueState) {
    && multiset(q.deck) == multiset(DeckSource(cards))
    && q.initialSize == |q.deck|
    && q.mastered == 0
    && !q.complete
  }

  /** The place a re-queued card goes back to in the remaining `n` cards. */
  function ReinsertionIndex(d: CardDifficulty, n: nat): (k: nat)
    requires d != Easy
    ensures k <= n
    ensures d == Hard ==> k == Min(1, n)
    ensures d == Medium ==> k == Min(3, n)
  {
    if d == Hard then Min(1, n) else Min(3, n)
  }

  /** The deck after rating its head card: `slice(1)`, then `splice` of the re-rated copy unless easy. */
  function RateDeck(deck: seq<FlashcardWithState>, d: CardDifficulty): (r: seq<FlashcardWithState>)
    requires deck != []
    ensures |r| == if d == Easy then |deck| - 1 else |deck|
    ensures d == Easy ==> multiset(r) == multiset(deck[1..])
    ensures d != Easy ==> multiset(r) == multiset(deck[1..]) + multiset{deck[0].(difficulty := Some(d))}
  {
    var newDeck := deck[1..];
    if d == Easy then newDeck
    else
      var k := ReinsertionIndex(d, |newDeck|);
      assert newDeck[..k] + newDeck[k..] == newDeck;
      newDeck[..k] + [deck[0].(difficulty := Some(d))] + newDeck[k..]
  }

  /** handleRate on the state: nothing happens on an empty deck. */
  function Rated(q: QueueState, d: CardDifficulty): (r: QueueState)
    ensures r.initialSize == q.initialSize
    ensures q.deck != [] ==> r.mastered == q.mastered + (if d == Easy then 1 else 0)
    ensures q.deck != [] ==> |r.deck| == |q.deck| - (if d == Easy then 1 else 0)
    ensures r.complete <==> q.complete || (q.deck != [] && r.deck == [])
    ensures q.deck == [] ==> r == q
    ensures q.deck != [] ==> r.deck == RateDeck(q.deck, d)
  {
    if q.deck == [] then q
    else
      var newDeck := RateDeck(q.deck, d);
      QueueState(
        newDeck,
        if d == Easy then q.mastered + 1 else q.mastered,
        q.initialSize,
        if newDeck == [] then true else q.complete)
  }

  /** `n` successive `easy` ratings. */
  function RateEasyTimes(q: QueueState, n: nat): QueueState
    decreases n
  {
    if n == 0 then q else RateEasyTimes(Rated(q, Easy), n - 1)
  }

  // ---------------------------------------------------------------------------
  // Properties of the queue
  // ---------------------------------------------------------------------------

  /** A freshly initialized queue satisfies the invariant; it is empty only for an empty card list. */
  lemma InitializedIsValid(cards: seq<FlashcardWithState>, q: QueueState)
    requires Initialized(cards, q)
    ensures QueueInvariant(q)
    ensures q.deck == [] <==> cards == []
    ensures |q.deck| == |DeckSource(cards)|
  {
    if q.deck == [] {
      assert multiset(DeckSource(cards)) == multiset{};
    } else {
      assert q.deck[0] in multiset(DeckSource(cards));
    }
    assert |multiset(q.deck)| == |q.deck|;
  }

  /** When every card is mastered, the session studies all of them again. */
  lemma AllMasteredFallsBackToAll(cards: seq<FlashcardWithState>, q: QueueState)
    requires forall c :: c in cards ==> IsMastered(c)
    requires Initialized(cards, q)
    ensures multiset(q.deck) == multiset(cards)
    ensures q.initialSize == |cards|
  {
    assert |multiset(q.deck)| == |q.deck|;
  }

  /**
   * Otherwise the session studies exactly the cards not yet mastered, each
   * as often as it occurs in the card list.
   */
  lemma DeckHoldsUnmastered(cards: seq<FlashcardWithState>, q: QueueState, c: FlashcardWithState)
    requires exists x :: x in cards && !IsMastered(x)
    requires Initialized(cards, q)
    ensures multiset(q.deck)[c] == if IsMastered(c) then 0 else multiset(cards)[c]
  {
  }

  /** Rating `easy` drops the head card for good: with distinct ids its id is no longer queued. */
  lemma EasyRemovesHead(deck: seq<FlashcardWithState>)
    requires deck != [] && DistinctIds(deck)
    ensures RateDeck(deck, Easy) == deck[1..]
    ensures |RateDeck(deck, Easy)| == |deck| - 1
    ensures deck[0].id !in Ids(RateDeck(deck, Easy))
  {
  }

  /**
   * Rating `hard` or `medium` keeps the deck length, puts the head card,
   * carrying its new rating, at index min(1, n) or min(3, n) of the n
   * remaining cards, and leaves the other cards in their order.
   */
  lemma ReinsertPlacesCard(deck: seq<FlashcardWithState>, d: CardDifficulty)
    requires deck != [] && d != Easy
    ensures var r := RateDeck(deck, d);
      var k := if d == Hard then Min(1, |deck| - 1) else Min(3, |deck| - 1);
      && |r| == |deck|
      && r[k] == FlashcardWithState(deck[0].id, deck[0].question, deck[0].answer, Some(d))
      && r[..k] + r[k + 1..] == deck[1..]
  {
    var rest := deck[1..];
    var k := ReinsertionIndex(d, |rest|);
    var card := deck[0].(difficulty := Some(d));
    var r := rest[..k] + [card] + rest[k..];
    assert RateDeck(deck, d) == r;
    assert r[k] == card;
    assert r[..k] == rest[..k];
    assert r[k + 1..] == rest[k..];
    assert rest[..k] + rest[k..] == rest;
  }

  /** Every rating keeps the invariant, and so the progress counters stay consistent. */
  lemma RatedKeepsInvariant(q: QueueState, d: CardDifficulty)
    requires QueueInvariant(q)
    ensures QueueInvariant(Rated(q, d))
  {
    if q.deck != [] && d != Easy {
      ReinsertPlacesCard(q.deck, d);
    }
  }

  /**
   * A rating completes the session exactly when it empties the deck; only
   * `easy` can do that, and an empty deck is left as it was.
   */
  lemma CompletionOnlyByEmptying(q: QueueState, d: CardDifficulty)
    requires QueueInvariant(q)
    ensures q.deck == [] ==> Rated(q, d) == q
    ensures q.deck != [] ==> (Rated(q, d).complete <==> Rated(q, d).deck == [])
    ensures q.deck != [] && d != Easy ==> !Rated(q, d).complete && |Rated(q, d).deck| == |q.deck|
  {
    if q.deck != [] && d != Easy {
      ReinsertPlacesCard(q.deck, d);
    }
  }

  /**
   * Rating `easy` as many times as there are cards left completes a
   * non-empty session, with every card of the initial deck mastered.
   */
  lemma {:induction false} EasyRunCompletes(q: QueueState)
    requires QueueInvariant(q) && q.deck != []
    ensures var e := RateEasyTimes(q, |q.deck|);
      e.complete && e.deck == [] && e.mastered == e.initialSize == q.initialSize
    decreases |q.deck|
  {
    var next := Rated(q, Easy);
    RatedKeepsInvariant(q, Easy);
    assert |next.deck| == |q.deck| - 1;
    if next.deck != [] {
      EasyRunCompletes(next);
    } else {
      assert RateEasyTimes(next, 0) == next;
    }
  }

  // ---------------------------------------------------------------------------
  // What the component renders (components/StudyView.tsx:68-141)
  // ---------------------------------------------------------------------------

  /** The four branches of the render function, with the figures they show. */
  datatype Screen =
    | AllMastered
    | Summary(reviewed: int, total: nat)
    | Studying(card: FlashcardWithState, progress: int, total: nat)
    | Loading

  /** The branch the component renders, with the counters of lines 86 and 110. */
  function ScreenOf(q: QueueState): (s: Screen)
    ensures QueueInvariant(q) ==> !s.Loading?
    ensures QueueInvariant(q) && s.Summary? ==> s.reviewed == s.total == q.initialSize
    ensures QueueInvariant(q) && s.Studying? ==> s.progress == q.mastered && 0 <= s.progress < s.total
    ensures QueueInvariant(q) ==> (s.AllMastered? <==> q.initialSize == 0)
    ensures QueueInvariant(q) ==> (s.Summary? <==> q.complete)
    ensures QueueInvariant(q) ==> (s.Studying? <==> q.deck != [])
    ensures s.Studying? ==> q.deck != [] && s.card == q.deck[0]
    ensures s.Studying? ==> s.total == q.initialSize
  {
    if q.initialSize == 0 && !q.complete then AllMastered
    else if q.complete then Summary(q.mastered + (q.initialSize - q.mastered), q.initialSize)
    else if q.deck != [] then Studying(q.deck[0], q.initialSize - |q.deck|, q.initialSize)
    else Loading
  }

  /**
   * The "all cards already mastered" screen appears after initialization
   * exactly when there were no cards at all: the fallback to every card
   * keeps an all-mastered list from producing an empty deck.
   */
  lemma AllMasteredScreenOnlyForNoCards(cards: seq<FlashcardWithState>, q: QueueState)
    requires Initialized(cards, q)
    ensures ScreenOf(q).AllMastered? <==> cards == []
  {
    InitializedIsValid(cards, q);
  }

  // ---------------------------------------------------------------------------
  // The component
  // ---------------------------------------------------------------------------

  class StudyView {
    var studyDeck: seq<FlashcardWithState>
    var sessionComplete: bool
    var masteredCount: nat
    var initialDeckSize: nat

    function State(): QueueState
      reads this
    {
      QueueState(studyDeck, masteredCount, initialDeckSize, sessionComplete)
    }

    predicate Valid()
      reads this
    {
      QueueInvariant(State())
    }

    /** The state hooks' initial values. */
    constructor ()
      ensures Valid()
      ensures State() == QueueState([], 0, 0, false)
    {
      studyDeck := [];
      sessionComplete := false;
      masteredCount := 0;
      initialDeckSize := 0;
    }

    /** initializeDeck: filter, fall back, shuffle, record the size and reset the counters. */
    method InitializeDeck(initialCards: seq<FlashcardWithState>)
      modifies this
      ensures Initialized(initialCards, State())
      ensures Valid()
    {
      var cardsToStudy := CardsToStudy(initialCards);
      var deck := if |cardsToStudy| > 0 then cardsToStudy else initialCards;
      var shuffledDeck := ShuffleArray(deck);
      studyDeck := shuffledDeck;
      initialDeckSize := |shuffledDeck|;
      sessionComplete := false;
      masteredCount := 0;
      InitializedIsValid(initialCards, State());
    }

    /**
     * handleRate: rates the head card. Returns the id passed to `onRateCard`,
     * or None when the deck is empty and nothing happens.
     */
    method HandleRate(difficulty: CardDifficulty) returns (ratedId: Option<string>)
      requires Valid()
      modifies this
      ensures Valid()
      ensures State() == Rated(old(State()), difficulty)
      ensures ratedId == if old(studyDeck) == [] then None else Some(old(studyDeck)[0].id)
    {
      RatedKeepsInvariant(State(), difficulty);
      if |studyDeck| == 0 {
        return None;
      }
      var currentCard := studyDeck[0];
      ratedId := Some(currentCard.id);
      var newDeck := studyDeck[1..];
      if difficulty == Easy {
        masteredCount := masteredCount + 1;
      } else {
        var reinsertionIndex := ReinsertionIndex(difficulty, |newDeck|);
        newDeck := newDeck[..reinsertionIndex] + [currentCard.(difficulty := Some(difficulty))] + newDeck[reinsertionIndex..];
      }
      studyDeck := newDeck;
      if |newDeck| == 0 {
        sessionComplete := true;
      }
    }

    /** The screen the component currently renders. */
    function CurrentScreen(): (s: Screen)
      reads this
      requires Valid()
      ensures !s.Loading?
      ensures s.Studying? ==> s.progress == masteredCount
      ensures s.Summary? ==> s.reviewed == initialDeckSize
      ensures s == ScreenOf(State())
      ensures s.Summary? <==> sessionComplete
      ensures s.Studying? ==> s.card == studyDeck[0]
    {
      ScreenOf(State())
    }
  }
}
