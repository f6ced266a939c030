/**
 One mounted memory game: the component's state variables as fields of an
 object, and every event the browser delivers (the mount effect, a click, a
 timer tick, a timeout firing, the effect that watches the score) as a method
 the environment calls. Each event method is proved to move the state exactly
 as the matching function of the rules does, and to keep the invariant. A click
 runs in steps (`FlipClicked`, then `ComparePair` with `RecordMatch` or
 `RecordMismatch`); each step is proved against its own part of `Rules.Click`
 and is called only from `ClickCard`, which re-establishes the invariant.
 */
module MemoryGame {
  import opened Cards
  import opened Decks
  import opened Rules

  class Session {
    /** The whole vocabulary, read-only for the session. */
    const wordPairs: seq<WordPair>

    var cards: seq<Card>
    var flippedCards: seq<int>
    var matches: nat
    var isChecking: bool
    var timer: int
    var isGameOver: bool
    var score: int
    var showWinMessage: bool

    /** The one-second timeouts scheduled by clicks and not yet run, in the order they fire. */
    ghost var pending: seq<Deferred>

    /** The state of the session as a value. */
    ghost function Snapshot(): Game
      reads this
    {
      Game(cards, flippedCards, matches, isChecking, timer, isGameOver, score, showWinMessage, pending)
    }

    /** The session invariant. */
    ghost predicate Valid()
      reads this
    {
      Inv(wordPairs, Snapshot())
    }

    /** Mounting the component: the initial state values, then the mount effect starts a game. */
    constructor (vocabulary: seq<WordPair>, pairOrder: seq<nat>, cardOrder: seq<nat>)
      requires IsPermutation(pairOrder, |vocabulary|)
      requires IsPermutation(cardOrder, 2 * PairCount(|vocabulary|))
      ensures wordPairs == vocabulary
      ensures Snapshot() == Mount(vocabulary, pairOrder, cardOrder)
      ensures Valid() && !isChecking && pending == []
    {
      wordPairs := vocabulary;
      cards := [];
      flippedCards := [];
      matches := 0;
      isChecking := false;
      timer := MountTime;
      isGameOver := false;
      score := InitialScore;
      showWinMessage := false;
      pending := [];
      new;
      assert Snapshot() == Unmounted();
      InitializeGame(pairOrder, cardOrder);
    }

    /**
     Start a new game: shuffle the vocabulary, take the first eight entries,
     build two cards per entry, shuffle the cards and reset the counters. The
     checking flag and the timeouts already scheduled are left as they are.
     */
    method InitializeGame(pairOrder: seq<nat>, cardOrder: seq<nat>)
      requires PendingWellFormed(Snapshot())
      requires IsPermutation(pairOrder, |wordPairs|)
      requires IsPermutation(cardOrder, 2 * PairCount(|wordPairs|))
      modifies this
      ensures Snapshot() == Restart(wordPairs, old(Snapshot()), pairOrder, cardOrder)
      ensures Valid()
    {
      ghost var before := Snapshot();
      var selectedPairs := SelectPairs(wordPairs, pairOrder);
      var gameCards := BuildDeck(selectedPairs);
      cards := Permute(gameCards, cardOrder);
      flippedCards := [];
      matches := 0;
      score := InitialScore;
      timer := InitialTime;
      isGameOver := false;
      showWinMessage := false;
      assert Snapshot() == Restart(wordPairs, before, pairOrder, cardOrder);
      RestartKeepsInv(wordPairs, before, pairOrder, cardOrder);
    }

    /** One run of the one-second interval, which runs only while the game is neither lost nor won. */
    method Tick()
      requires Valid()
      modifies this`timer, this`isGameOver
      ensures Snapshot() == Rules.Tick(old(Snapshot()))
      ensures Valid()
    {
      TickKeepsInv(wordPairs, Snapshot());
      if isGameOver || showWinMessage {
        return;
      }
      if timer <= 1 {
        isGameOver := true;
        timer := 0;
      } else {
        timer := timer - 1;
      }
    }

    /** The effect run when the score changes: a score of zero or less ends the game. */
    method ScoreEffect()
      requires Valid()
      modifies this`isGameOver
      ensures Snapshot() == Rules.ScoreEffect(old(Snapshot()))
      ensures Valid()
    {
      ScoreEffectKeepsInv(wordPairs, Snapshot());
      if score <= 0 {
        isGameOver := true;
      }
    }

    /** A click on the card with the given id. */
    method ClickCard(id: int)
      requires Valid()
      modifies this
      ensures Snapshot() == Click(wordPairs, old(Snapshot()), id)
      ensures Valid()
    {
      ClickKeepsInv(wordPairs, Snapshot(), id);
      if isGameOver || showWinMessage {
        return;
      }
      var target := Find(cards, id);
      if isChecking || id in flippedCards || (target.Some? && target.value.isMatched) || |flippedCards| == 2 {
        return;
      }
      var rendered := cards;
      FlipClicked(id);
      if |flippedCards| == 2 {
        ComparePair(rendered);
      }
    }

    /** A step of `ClickCard`, the first part of an accepted click: the card turns face up and its id joins the flipped list. */
    method FlipClicked(id: int)
      modifies this`cards, this`flippedCards
      ensures Snapshot() == Accept(old(Snapshot()), id)
    {
      var newFlippedCards := flippedCards + [id];
      flippedCards := newFlippedCards;
      cards := FlipCard(cards, id);
    }

    /**
     A step of `ClickCard`, the second part of a click on a second card:
     compare the two flipped cards, looked up on the board as it was rendered
     before the click.
     */
    method ComparePair(board: seq<Card>)
      requires |flippedCards| == 2
      modifies this
      ensures Snapshot() == Compare(wordPairs, old(Snapshot()), board)
    {
      ghost var before := Snapshot();
      isChecking := true;
      var firstId, secondId := flippedCards[0], flippedCards[1];
      var firstCard := Find(board, firstId);
      var secondCard := Find(board, secondId);
      if firstCard.Some? && secondCard.Some? {
        if IsMatch(wordPairs, firstCard.value.content, secondCard.value.content) {
          RecordMatch(firstId, secondId);
        } else {
          RecordMismatch(firstId, secondId);
        }
        pending := pending + [EndCheck];
      }
      flippedCards := [];
      assert Snapshot() == Compare(wordPairs, before, board);
    }

    /** A step of `ComparePair`, a found pair: both cards are marked matched, the match count and the score rise, and the last pair wins. */
    method RecordMatch(firstId: int, secondId: int)
      modifies this`cards, this`matches, this`showWinMessage, this`score
      ensures cards == MarkMatched(old(cards), firstId, secondId)
      ensures matches == old(matches) + 1
      ensures showWinMessage == if old(matches) + 1 == |wordPairs| then true else old(showWinMessage)
      ensures score == old(score) + MatchReward
    {
      cards := MarkMatched(cards, firstId, secondId);
      var newMatches := matches + 1;
      if newMatches == |wordPairs| {
        showWinMessage := true;
      }
      matches := newMatches;
      score := score + MatchReward;
    }

    /** A step of `ComparePair`, a mismatch: the score drops, and the revert of the two cards is scheduled. */
    method RecordMismatch(firstId: int, secondId: int)
      modifies this`score, this`pending
      ensures score == Penalized(old(score))
      ensures pending == old(pending) + [Revert(firstId, secondId)]
    {
      score := Penalized(score);
      pending := pending + [Revert(firstId, secondId)];
    }

    /** The timeout that ends the check after a compared pair. */
    method EndChecking()
      requires Valid()
      requires pending != [] && pending[0] == EndCheck
      modifies this`isChecking, this`pending
      ensures Snapshot() == Rules.EndChecking(old(Snapshot()))
      ensures Valid()
    {
      EndCheckingKeepsInv(wordPairs, Snapshot());
      isChecking := false;
      pending := pending[1..];
    }

    /** The timeout that turns a mismatched pair face down again. */
    method RevertMismatch(firstId: int, secondId: int)
      requires Valid()
      requires pending != [] && pending[0] == Revert(firstId, secondId)
      modifies this`cards, this`pending
      ensures Snapshot() == Rules.RevertMismatch(old(Snapshot()), firstId, secondId)
      ensures Valid()
    {
      RevertKeepsInv(wordPairs, Snapshot(), firstId, secondId);
      cards := FlipBack(cards, firstId, secondId);
      pending := pending[1..];
    }
  }
}
