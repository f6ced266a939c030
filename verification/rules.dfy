/**
 The rules of one game session as functions on a record of its state: what a
 click, a timer tick, a timeout, the score watcher and a restart each do to
 the state, the invariant every one of them keeps, and what they promise.
 */
module Rules {
  import opened Cards
  import opened Decks

  const InitialScore: int := 100
  const InitialTime: int := 90
  /** The timer's value before the mount effect first starts a game. */
  const MountTime: int := 60
  const MatchReward: int := 100
  const MismatchPenalty: int := 10

  /** A callback scheduled with a one-second timeout and not yet run. */
  datatype Deferred =
    | Revert(first: int, second: int)  // turn a mismatched pair face down again
    | EndCheck                         // accept clicks again

  /**
   The state of a session. `pending` lists the one-second timeouts scheduled
   and not yet run, in the order they fire: they share one delay, so they run
   in the order they were scheduled.
   */
  datatype Game = Game(
    cards: seq<Card>,
    flippedCards: seq<int>,
    matches: nat,
    isChecking: bool,
    timer: int,
    isGameOver: bool,
    score: int,
    showWinMessage: bool,
    pending: seq<Deferred>)

  /** The timeouts waiting are those of one click on a second card, and they keep clicks out. */
  predicate PendingWellFormed(g: Game) {
    && (g.pending == [] || g.pending == [EndCheck]
        || (|g.pending| == 2 && g.pending[0].Revert? && g.pending[1] == EndCheck))
    && (g.pending != [] ==> g.isChecking)
  }

  /** The invariant of a session over the given vocabulary. */
  ghost predicate Inv(vocabulary: seq<WordPair>, g: Game) {
    && PendingWellFormed(g)
    && |g.cards| == 2 * PairCount(|vocabulary|)
    && UniqueIds(g.cards)
    && |g.flippedCards| <= 1
    && UnmatchedIds(g.cards, g.flippedCards)
    && MatchedFaceUp(g.cards)
    && (|g.pending| == 2 ==> Unmatched(g.cards, g.pending[0].first) && Unmatched(g.cards, g.pending[0].second))
    && 2 * g.matches == MatchedCount(g.cards)
    && (g.showWinMessage ==> g.matches == |vocabulary|)
    && g.score >= 0
    && g.timer >= 0
  }

  /** A click on the card with this id is ignored. */
  predicate Rejects(g: Game, id: int) {
    || g.isGameOver || g.showWinMessage
    || g.isChecking
    || id in g.flippedCards
    || (Find(g.cards, id).Some? && Find(g.cards, id).value.isMatched)
    || |g.flippedCards| == 2
  }

  /** The score after a mismatch: ten points less, but never below zero. */
  function Penalized(score: int): (r: int)
    ensures r >= 0
    ensures score >= MismatchPenalty ==> r == score - MismatchPenalty
    ensures score <= MismatchPenalty ==> r == 0
  {
    if score - MismatchPenalty > 0 then score - MismatchPenalty else 0
  }

  /** An accepted click: the card turns face up and its id joins the flipped list. */
  function Accept(g: Game, id: int): (r: Game)
    ensures r.flippedCards == g.flippedCards + [id]
    ensures |r.cards| == |g.cards| && MatchedCount(r.cards) == MatchedCount(g.cards)
    ensures forall k | 0 <= k < |g.cards| :: r.cards[k].id == g.cards[k].id && r.cards[k].isMatched == g.cards[k].isMatched
    ensures r == g.(cards := r.cards, flippedCards := r.flippedCards)
  {
    g.(cards := FlipCard(g.cards, id), flippedCards := g.flippedCards + [id])
  }

  /**
   The comparison of the two flipped cards, looked up on the board as it was
   rendered before the click: a found pair is marked matched, a mismatch costs
   points and schedules the revert, and either way a timeout ends the check.
   */
  function Compare(vocabulary: seq<WordPair>, g: Game, board: seq<Card>): (r: Game)
    requires |g.flippedCards| == 2
    ensures r.flippedCards == [] && r.isChecking
    ensures |r.cards| == |g.cards|
    ensures r.matches == g.matches || r.matches == g.matches + 1
    ensures g.score >= 0 ==> r.score >= 0
    ensures r.timer == g.timer && r.isGameOver == g.isGameOver
  {
    var firstId, secondId := g.flippedCards[0], g.flippedCards[1];
    var firstCard, secondCard := Find(board, firstId), Find(board, secondId);
    if firstCard.None? || secondCard.None? then
      // nothing to compare: no timeout is scheduled, so the check never ends
      g.(flippedCards := [], isChecking := true)
    else if IsMatch(vocabulary, firstCard.value.content, secondCard.value.content) then
      g.(cards := MarkMatched(g.cards, firstId, secondId),
         flippedCards := [],
         isChecking := true,
         matches := g.matches + 1,
         showWinMessage := if g.matches + 1 == |vocabulary| then true else g.showWinMessage,
         score := g.score + MatchReward,
         pending := g.pending + [EndCheck])
    else
      g.(flippedCards := [],
         isChecking := true,
         score := Penalized(g.score),
         pending := g.pending + [Revert(firstId, secondId)] + [EndCheck])
  }

  /** A click on the card with the given id. */
  function Click(vocabulary: seq<WordPair>, g: Game, id: int): (r: Game)
    ensures |r.cards| == |g.cards|
    ensures |g.flippedCards| <= 1 ==> |r.flippedCards| <= 1
    ensures r.matches == g.matches || r.matches == g.matches + 1
    ensures g.score >= 0 ==> r.score >= 0
    ensures r.timer == g.timer && r.isGameOver == g.isGameOver
  {
    if Rejects(g, id) then g
    else
      var accepted := Accept(g, id);
      if |accepted.flippedCards| == 2 then Compare(vocabulary, accepted, g.cards) else accepted
  }

  /** One run of the one-second interval, which runs only while the game is neither lost nor won. */
  function Tick(g: Game): (r: Game)
    ensures g.timer >= 0 ==> r.timer >= 0
    ensures r.isGameOver <==> g.isGameOver || (!g.showWinMessage && g.timer <= 1)
    ensures !g.isGameOver && !g.showWinMessage && g.timer > 1 ==> r.timer == g.timer - 1
    ensures !g.isGameOver && !g.showWinMessage && g.timer <= 1 ==> r.timer == 0
    ensures g.isGameOver || g.showWinMessage ==> r == g
    ensures r == g.(timer := r.timer, isGameOver := r.isGameOver)
  {
    if g.isGameOver || g.showWinMessage then g
    else if g.timer <= 1 then g.(timer := 0, isGameOver := true)
    else g.(timer := g.timer - 1)
  }

  /** The effect run when the score changes: a score of zero or less ends the game. */
  function ScoreEffect(g: Game): (r: Game)
    ensures r.isGameOver <==> g.isGameOver || g.score <= 0
    ensures r == g.(isGameOver := r.isGameOver)
  {
    if g.score <= 0 then g.(isGameOver := true) else g
  }

  /** The timeout that ends the check after a compared pair. */
  function EndChecking(g: Game): (r: Game)
    requires g.pending != [] && g.pending[0] == EndCheck
    ensures !r.isChecking && r.cards == g.cards && r.flippedCards == g.flippedCards
    ensures |r.pending| == |g.pending| - 1
  {
    g.(isChecking := false, pending := g.pending[1..])
  }

  /** The timeout that turns a mismatched pair face down again. */
  function RevertMismatch(g: Game, firstId: int, secondId: int): (r: Game)
    requires g.pending != [] && g.pending[0] == Revert(firstId, secondId)
    ensures |r.cards| == |g.cards| && MatchedCount(r.cards) == MatchedCount(g.cards)
    ensures forall k | 0 <= k < |g.cards| :: r.cards[k].id == g.cards[k].id && r.cards[k].isMatched == g.cards[k].isMatched
    ensures |r.pending| == |g.pending| - 1
  {
    g.(cards := FlipBack(g.cards, firstId, secondId), pending := g.pending[1..])
  }

  /** A new game on a fresh shuffled deck; the checking flag and the waiting timeouts stay as they are. */
  function Restart(vocabulary: seq<WordPair>, g: Game, pairOrder: seq<nat>, cardOrder: seq<nat>): (r: Game)
    requires IsPermutation(pairOrder, |vocabulary|)
    requires IsPermutation(cardOrder, 2 * PairCount(|vocabulary|))
    ensures |r.cards| == 2 * PairCount(|vocabulary|)
    ensures r.isChecking == g.isChecking && r.pending == g.pending
  {
    g.(cards := Permute(Deck(SelectPairs(vocabulary, pairOrder)), cardOrder),
       flippedCards := [],
       matches := 0,
       score := InitialScore,
       timer := InitialTime,
       isGameOver := false,
       showWinMessage := false)
  }

  /** The state before the mount effect runs. */
  function Unmounted(): Game {
    Game([], [], 0, false, MountTime, false, InitialScore, false, [])
  }

  /** Mounting the game: the initial state, then the mount effect starts a game. */
  function Mount(vocabulary: seq<WordPair>, pairOrder: seq<nat>, cardOrder: seq<nat>): (r: Game)
    requires IsPermutation(pairOrder, |vocabulary|)
    requires IsPermutation(cardOrder, 2 * PairCount(|vocabulary|))
    ensures |r.cards| == 2 * PairCount(|vocabulary|)
    ensures !r.isChecking && r.pending == [] && r.timer == InitialTime
  {
    Restart(vocabulary, Unmounted(), pairOrder, cardOrder)
  }

  // ---------------------------------------------------------------------------
  // The invariant is kept by every event

  /**
   A restart deals a permutation of the freshly built deck and resets every
   counter; it keeps the invariant from any state whose timeouts are well formed.
   */
  lemma RestartKeepsInv(vocabulary: seq<WordPair>, g: Game, pairOrder: seq<nat>, cardOrder: seq<nat>)
    requires PendingWellFormed(g)
    requires IsPermutation(pairOrder, |vocabulary|)
    requires IsPermutation(cardOrder, 2 * PairCount(|vocabulary|))
    ensures var r := Restart(vocabulary, g, pairOrder, cardOrder);
      && Inv(vocabulary, r)
      && multiset(r.cards) == multiset(Deck(SelectPairs(vocabulary, pairOrder)))
      && (forall k | 0 <= k < |r.cards| :: !r.cards[k].isFlipped && !r.cards[k].isMatched)
      && r.flippedCards == [] && r.matches == 0 && r.score == InitialScore && r.timer == InitialTime
      && !r.isGameOver && !r.showWinMessage
      && r.isChecking == g.isChecking && r.pending == g.pending
  {
    var selected := SelectPairs(vocabulary, pairOrder);
    ShuffledDeckFresh(selected, cardOrder);
  }

  /** A mounted game satisfies the invariant and accepts clicks. */
  lemma MountInv(vocabulary: seq<WordPair>, pairOrder: seq<nat>, cardOrder: seq<nat>)
    requires IsPermutation(pairOrder, |vocabulary|)
    requires IsPermutation(cardOrder, 2 * PairCount(|vocabulary|))
    ensures var g := Mount(vocabulary, pairOrder, cardOrder);
      && Inv(vocabulary, g) && !g.isChecking && g.pending == [] && g.timer == InitialTime
      && g.flippedCards == [] && g.matches == 0 && g.score == InitialScore
      && !g.isGameOver && !g.showWinMessage
  {
    RestartKeepsInv(vocabulary, Unmounted(), pairOrder, cardOrder);
  }

  lemma TickKeepsInv(vocabulary: seq<WordPair>, g: Game)
    requires Inv(vocabulary, g)
    ensures Inv(vocabulary, Tick(g))
  {
  }

  lemma ScoreEffectKeepsInv(vocabulary: seq<WordPair>, g: Game)
    requires Inv(vocabulary, g)
    ensures Inv(vocabulary, ScoreEffect(g))
  {
  }

  lemma EndCheckingKeepsInv(vocabulary: seq<WordPair>, g: Game)
    requires Inv(vocabulary, g)
    requires g.pending != [] && g.pending[0] == EndCheck
    ensures Inv(vocabulary, EndChecking(g))
    ensures EndChecking(g).pending == []
  {
  }

  /**
   The deferred revert keeps the invariant, and it never touches a matched
   card: only the two mismatched cards, which are still unmatched, turn face down.
   */
  lemma RevertKeepsInv(vocabulary: seq<WordPair>, g: Game, firstId: int, secondId: int)
    requires Inv(vocabulary, g)
    requires g.pending != [] && g.pending[0] == Revert(firstId, secondId)
    ensures var r := RevertMismatch(g, firstId, secondId);
      && Inv(vocabulary, r)
      && r.pending == [EndCheck]
      && forall k | 0 <= k < |g.cards| :: g.cards[k].isMatched ==> r.cards[k] == g.cards[k]
  {
    FlipBackKeeps(g.cards, firstId, secondId, g.flippedCards);
  }

  /** The first accepted click of a pair keeps the invariant. */
  lemma FirstFlipKeepsInv(vocabulary: seq<WordPair>, g: Game, id: int)
    requires Inv(vocabulary, g) && !Rejects(g, id) && g.flippedCards == []
    ensures Inv(vocabulary, Click(vocabulary, g, id))
  {
    LookupUnmatched(g.cards, id);
    FlipCardKeeps(g.cards, id, []);
    FirstFlipState(vocabulary, g, id);
  }

  /** A second click whose cards cannot both be found keeps the invariant. */
  lemma MissingCardKeepsInv(vocabulary: seq<WordPair>, g: Game, id: int)
    requires Inv(vocabulary, g) && !Rejects(g, id) && |g.flippedCards| == 1
    requires Find(g.cards, g.flippedCards[0]).None? || Find(g.cards, id).None?
    ensures Inv(vocabulary, Click(vocabulary, g, id))
  {
    FlipCardKeeps(g.cards, id, []);
  }

  /** A rejected click changes nothing. */
  lemma RejectedState(vocabulary: seq<WordPair>, g: Game, id: int)
    requires Rejects(g, id)
    ensures Click(vocabulary, g, id) == g
  {
  }

  /** The state after a second click when one of the two cards is not on the board. */
  lemma MissingCardState(vocabulary: seq<WordPair>, g: Game, id: int)
    requires !Rejects(g, id) && |g.flippedCards| == 1
    requires Find(g.cards, g.flippedCards[0]).None? || Find(g.cards, id).None?
    ensures Click(vocabulary, g, id) == g.(cards := FlipCard(g.cards, id), flippedCards := [], isChecking := true)
  {
  }

  /** The state after the first card of a pair. */
  lemma FirstFlipState(vocabulary: seq<WordPair>, g: Game, id: int)
    requires !Rejects(g, id) && g.flippedCards == []
    ensures Click(vocabulary, g, id) == Accept(g, id)
  {
  }

  /** The state after the second card of a found pair. */
  lemma MatchState(vocabulary: seq<WordPair>, g: Game, id: int)
    requires !Rejects(g, id) && |g.flippedCards| == 1
    requires Find(g.cards, g.flippedCards[0]).Some? && Find(g.cards, id).Some?
    requires IsMatch(vocabulary, Find(g.cards, g.flippedCards[0]).value.content, Find(g.cards, id).value.content)
    ensures Click(vocabulary, g, id) ==
      g.(cards := MarkMatched(FlipCard(g.cards, id), g.flippedCards[0], id),
         flippedCards := [],
         isChecking := true,
         matches := g.matches + 1,
         showWinMessage := if g.matches + 1 == |vocabulary| then true else g.showWinMessage,
         score := g.score + MatchReward,
         pending := g.pending + [EndCheck])
  {
  }

  /** The state after the second card of a mismatch. */
  lemma MismatchState(vocabulary: seq<WordPair>, g: Game, id: int)
    requires !Rejects(g, id) && |g.flippedCards| == 1
    requires Find(g.cards, g.flippedCards[0]).Some? && Find(g.cards, id).Some?
    requires !IsMatch(vocabulary, Find(g.cards, g.flippedCards[0]).value.content, Find(g.cards, id).value.content)
    ensures Click(vocabulary, g, id) ==
      g.(cards := FlipCard(g.cards, id),
         flippedCards := [],
         isChecking := true,
         score := Penalized(g.score),
         pending := g.pending + [Revert(g.flippedCards[0], id), EndCheck])
  {
  }

  /** Under the invariant, both cards of an accepted second click are unmatched. */
  lemma SecondClickUnmatched(vocabulary: seq<WordPair>, g: Game, id: int)
    requires Inv(vocabulary, g) && !Rejects(g, id) && |g.flippedCards| == 1
    ensures Unmatched(g.cards, g.flippedCards[0]) && Unmatched(g.cards, id) && g.flippedCards[0] != id
  {
    LookupUnmatched(g.cards, id);
    assert g.flippedCards[0] in g.flippedCards;
  }

  /** A second click on the partner of the first card keeps the invariant. */
  lemma MatchKeepsInv(vocabulary: seq<WordPair>, g: Game, id: int)
    requires Inv(vocabulary, g) && !Rejects(g, id) && |g.flippedCards| == 1
    requires Find(g.cards, g.flippedCards[0]).Some? && Find(g.cards, id).Some?
    requires IsMatch(vocabulary, Find(g.cards, g.flippedCards[0]).value.content, Find(g.cards, id).value.content)
    ensures Inv(vocabulary, Click(vocabulary, g, id))
    ensures MatchedCount(Click(vocabulary, g, id).cards) == MatchedCount(g.cards) + 2
  {
    MatchState(vocabulary, g, id);
    SecondClickUnmatched(vocabulary, g, id);
    MatchPairKeeps(g.cards, g.flippedCards[0], id);
  }

  /** A second click on a card that does not pair with the first keeps the invariant. */
  lemma MismatchKeepsInv(vocabulary: seq<WordPair>, g: Game, id: int)
    requires Inv(vocabulary, g) && !Rejects(g, id) && |g.flippedCards| == 1
    requires Find(g.cards, g.flippedCards[0]).Some? && Find(g.cards, id).Some?
    requires !IsMatch(vocabulary, Find(g.cards, g.flippedCards[0]).value.content, Find(g.cards, id).value.content)
    ensures Inv(vocabulary, Click(vocabulary, g, id))
  {
    var firstId := g.flippedCards[0];
    MismatchState(vocabulary, g, id);
    SecondClickUnmatched(vocabulary, g, id);
    FlipCardKeeps(g.cards, id, []);
  }

  /** Every click keeps the invariant. */
  lemma ClickKeepsInv(vocabulary: seq<WordPair>, g: Game, id: int)
    requires Inv(vocabulary, g)
    ensures Inv(vocabulary, Click(vocabulary, g, id))
  {
    if !Rejects(g, id) {
      if g.flippedCards == [] {
        FirstFlipKeepsInv(vocabulary, g, id);
      } else {
        var a, b := Find(g.cards, g.flippedCards[0]), Find(g.cards, id);
        if a.None? || b.None? {
          MissingCardKeepsInv(vocabulary, g, id);
        } else if IsMatch(vocabulary, a.value.content, b.value.content) {
          MatchKeepsInv(vocabulary, g, id);
        } else {
          MismatchKeepsInv(vocabulary, g, id);
        }
      }
    }
  }

  // ---------------------------------------------------------------------------
  // What a click promises

  /** A terminal game stays as it is: no click and no tick changes it. */
  lemma TerminalIsFinal(vocabulary: seq<WordPair>, g: Game, id: int)
    requires g.isGameOver || g.showWinMessage
    ensures Click(vocabulary, g, id) == g && Tick(g) == g
  {
  }

  /**
   An accepted click turns face up the card it targets and leaves every other
   card, the counters and the flags as they were; the flipped list grows by its
   id if it is the first card of a pair and is emptied if it is the second.
   */
  lemma AcceptedClickFlipsTarget(vocabulary: seq<WordPair>, g: Game, id: int)
    requires Inv(vocabulary, g) && !Rejects(g, id)
    ensures var r := Click(vocabulary, g, id);
      && |r.cards| == |g.cards|
      && (forall k | 0 <= k < |g.cards| :: g.cards[k].id == id ==> r.cards[k].isFlipped)
      && (forall k | 0 <= k < |g.cards| :: g.cards[k].id != id && !(g.cards[k].id in g.flippedCards) ==> r.cards[k] == g.cards[k])
      && (g.flippedCards == [] ==> r.flippedCards == [id] && r.cards == FlipCard(g.cards, id)
                                   && r.matches == g.matches && r.score == g.score && !r.isChecking)
      && (g.flippedCards != [] ==> r.flippedCards == [] && r.isChecking)
      && r.timer == g.timer && r.isGameOver == g.isGameOver
  {
  }

  /** A matched card is never changed by a click. */
  lemma ClickKeepsMatched(vocabulary: seq<WordPair>, g: Game, id: int)
    requires Inv(vocabulary, g)
    ensures var r := Click(vocabulary, g, id);
      && |r.cards| == |g.cards|
      && forall k | 0 <= k < |g.cards| :: g.cards[k].isMatched ==> r.cards[k] == g.cards[k]
  {
    if !Rejects(g, id) {
      LookupUnmatched(g.cards, id);
    }
  }

  /**
   The second card of a found pair: both cards end flipped and matched, the
   match count and the score rise by one and by a hundred, the win flag is set
   exactly when the new match count equals the size of the whole vocabulary,
   and the check ends after one timeout.
   */
  lemma MatchOutcome(vocabulary: seq<WordPair>, g: Game, id: int)
    requires Inv(vocabulary, g) && !Rejects(g, id) && |g.flippedCards| == 1
    requires Find(g.cards, g.flippedCards[0]).Some? && Find(g.cards, id).Some?
    requires IsMatch(vocabulary, Find(g.cards, g.flippedCards[0]).value.content, Find(g.cards, id).value.content)
    ensures var r := Click(vocabulary, g, id);
      && |r.cards| == |g.cards|
      && (forall k | 0 <= k < |g.cards| && (g.cards[k].id == g.flippedCards[0] || g.cards[k].id == id) ::
            r.cards[k].isFlipped && r.cards[k].isMatched)
      && MatchedCount(r.cards) == MatchedCount(g.cards) + 2
      && r.matches == g.matches + 1
      && r.score == g.score + MatchReward
      && (r.showWinMessage <==> r.matches == |vocabulary|)
      && r.flippedCards == [] && r.isChecking && r.pending == [EndCheck]
  {
    MatchState(vocabulary, g, id);
    SecondClickUnmatched(vocabulary, g, id);
    MatchPairKeeps(g.cards, g.flippedCards[0], id);
    assert g.pending == [];
  }

  /**
   The second card of a mismatch: the score loses ten points but stays
   non-negative, the match count stays, and the two cards are scheduled to turn
   face down before the check ends.
   */
  lemma MismatchOutcome(vocabulary: seq<WordPair>, g: Game, id: int)
    requires Inv(vocabulary, g) && !Rejects(g, id) && |g.flippedCards| == 1
    requires Find(g.cards, g.flippedCards[0]).Some? && Find(g.cards, id).Some?
    requires !IsMatch(vocabulary, Find(g.cards, g.flippedCards[0]).value.content, Find(g.cards, id).value.content)
    ensures var r := Click(vocabulary, g, id);
      && r.score == Penalized(g.score) && r.score >= 0
      && r.matches == g.matches
      && MatchedCount(r.cards) == MatchedCount(g.cards)
      && r.pending == [Revert(g.flippedCards[0], id), EndCheck]
      && r.flippedCards == [] && r.isChecking
  {
    MismatchState(vocabulary, g, id);
  }

  /**
   A mismatch followed by its two timeouts leaves the board as it was before the
   pair was turned, with both cards face down, and accepts clicks again.
   */
  lemma MismatchRoundTrip(vocabulary: seq<WordPair>, g: Game, id: int)
    requires Inv(vocabulary, g) && !Rejects(g, id) && |g.flippedCards| == 1
    requires Find(g.cards, g.flippedCards[0]).Some? && Find(g.cards, id).Some?
    requires !IsMatch(vocabulary, Find(g.cards, g.flippedCards[0]).value.content, Find(g.cards, id).value.content)
    ensures var firstId := g.flippedCards[0];
      var r1 := Click(vocabulary, g, id);
      r1.pending != [] && r1.pending[0] == Revert(firstId, id) &&
      var r2 := RevertMismatch(r1, firstId, id);
      r2.pending != [] && r2.pending[0] == EndCheck &&
      var r3 := EndChecking(r2);
      && r3.cards == FlipBack(g.cards, firstId, id)
      && (forall k | 0 <= k < |g.cards| ::
            if g.cards[k].id == firstId || g.cards[k].id == id then !r3.cards[k].isFlipped
            else r3.cards[k] == g.cards[k])
      && r3.score == Penalized(g.score) && r3.matches == g.matches
      && !r3.isChecking && r3.pending == [] && r3.flippedCards == []
      && Inv(vocabulary, r3)
  {
    var firstId := g.flippedCards[0];
    MismatchState(vocabulary, g, id);
    assert g.pending == [];
    FlipBackAfterFlip(g.cards, firstId, id);
    SecondClickUnmatched(vocabulary, g, id);
    FlipBackKeeps(g.cards, firstId, id, []);
  }

  /** A score of zero ends the game once the score watcher has run. */
  lemma ZeroScoreEndsGame(g: Game)
    requires g.score <= 0
    ensures ScoreEffect(g).isGameOver
  {
  }

  // ---------------------------------------------------------------------------
  // Winning

  /**
   The match count never exceeds the number of pairs on the board, and a won
   session used at most eight vocabulary entries and has every card matched:
   the win test counts against the whole vocabulary, so with more than eight
   entries no session is ever won.
   */
  lemma WinNeedsWholeVocabulary(vocabulary: seq<WordPair>, g: Game)
    requires Inv(vocabulary, g)
    ensures g.matches <= PairCount(|vocabulary|)
    ensures g.showWinMessage ==>
      |vocabulary| <= PairsPerGame && forall k | 0 <= k < |g.cards| :: g.cards[k].isMatched
  {
    MatchedCountFull(g.cards);
  }

  // ---------------------------------------------------------------------------
  // A fresh game

  /** In a freshly dealt game, card 2i is the Spanish and card 2i+1 the English word of the i-th selected entry. */
  lemma FreshCardLookup(vocabulary: seq<WordPair>, pairOrder: seq<nat>, cardOrder: seq<nat>, k: nat)
    requires IsPermutation(pairOrder, |vocabulary|)
    requires IsPermutation(cardOrder, 2 * PairCount(|vocabulary|))
    requires k < 2 * PairCount(|vocabulary|)
    ensures var g := Mount(vocabulary, pairOrder, cardOrder);
      Find(g.cards, k) == Some(Deck(SelectPairs(vocabulary, pairOrder))[k])
  {
    var g := Mount(vocabulary, pairOrder, cardOrder);
    var d := Deck(SelectPairs(vocabulary, pairOrder));
    MountInv(vocabulary, pairOrder, cardOrder);
    DeckFresh(SelectPairs(vocabulary, pairOrder));
    var x := PositionOf(cardOrder, |d|, k);
    assert g.cards[x] == d[k];
    FindUnique(g.cards, x);
  }

  /**
   In a game that accepts clicks, has no card flipped and distinct card ids
   with every matched card face up, clicking two
   unmatched cards whose words form a vocabulary entry matches them: both end
   matched, the match count rises by one and the score by a hundred, and the
   game is won exactly when the new match count equals the vocabulary size.
   */
  lemma PairClicks(vocabulary: seq<WordPair>, g: Game, a: int, b: int)
    requires UniqueIds(g.cards) && MatchedFaceUp(g.cards) && g.flippedCards == []
    requires !g.isChecking && !g.isGameOver && !g.showWinMessage
    requires a != b
    requires Find(g.cards, a).Some? && !Find(g.cards, a).value.isMatched
    requires Find(g.cards, b).Some? && !Find(g.cards, b).value.isMatched
    requires IsMatch(vocabulary, Find(g.cards, a).value.content, Find(g.cards, b).value.content)
    ensures var r := Click(vocabulary, Click(vocabulary, g, a), b);
      && |r.cards| == |g.cards|
      && (forall k | 0 <= k < |g.cards| && (g.cards[k].id == a || g.cards[k].id == b) ::
            r.cards[k].isFlipped && r.cards[k].isMatched)
      && MatchedCount(r.cards) == MatchedCount(g.cards) + 2
      && r.matches == g.matches + 1
      && r.score == g.score + MatchReward
      && (r.showWinMessage <==> g.matches + 1 == |vocabulary|)
      && r.flippedCards == [] && r.isChecking
  {
    FirstOfPair(vocabulary, g, a, b);
    var g1 := Click(vocabulary, g, a);
    LookupUnmatched(g.cards, a);
    LookupUnmatched(g.cards, b);
    FlipCardKeeps(g.cards, a, []);
    MatchState(vocabulary, g1, b);
    MatchPairKeeps(g1.cards, a, b);
  }

  /**
   After the first click of a pair the second card is still accepted and both
   cards are still found with their words.
   */
  lemma FirstOfPair(vocabulary: seq<WordPair>, g: Game, a: int, b: int)
    requires g.flippedCards == []
    requires !g.isChecking && !g.isGameOver && !g.showWinMessage
    requires a != b
    requires Find(g.cards, a).Some? && !Find(g.cards, a).value.isMatched
    requires Find(g.cards, b).Some? && !Find(g.cards, b).value.isMatched
    ensures var g1 := Click(vocabulary, g, a);
      && g1 == Accept(g, a)
      && |g1.flippedCards| == 1 && g1.flippedCards[0] == a
      && !Rejects(g1, b)
      && Find(g1.cards, a).Some? && Find(g1.cards, a).value.content == Find(g.cards, a).value.content
      && Find(g1.cards, b).Some? && Find(g1.cards, b).value.content == Find(g.cards, b).value.content
  {
    FirstFlipState(vocabulary, g, a);
    FlipLookupContent(g.cards, a, a);
    FlipLookupContent(g.cards, a, b);
  }

  /**
   In a freshly mounted game, clicking the two cards of one selected entry
   matches them: both end matched, the match count is one and the score is two
   hundred, and the game is won only when the vocabulary holds a single entry.
   */
  lemma FreshPairScenario(vocabulary: seq<WordPair>, pairOrder: seq<nat>, cardOrder: seq<nat>, i: nat)
    requires IsPermutation(pairOrder, |vocabulary|)
    requires IsPermutation(cardOrder, 2 * PairCount(|vocabulary|))
    requires i < PairCount(|vocabulary|)
    ensures var g0 := Mount(vocabulary, pairOrder, cardOrder);
      var g2 := Click(vocabulary, Click(vocabulary, g0, 2 * i), 2 * i + 1);
      && g2.matches == 1
      && g2.score == InitialScore + MatchReward
      && (forall k | 0 <= k < |g0.cards| && (g0.cards[k].id == 2 * i || g0.cards[k].id == 2 * i + 1) ::
            g2.cards[k].isMatched)
      && (g2.showWinMessage <==> |vocabulary| == 1)
  {
    MountInv(vocabulary, pairOrder, cardOrder);
    MountedPair(vocabulary, pairOrder, cardOrder, i);
    PairClicks(vocabulary, Mount(vocabulary, pairOrder, cardOrder), 2 * i, 2 * i + 1);
  }

  /**
   In a freshly mounted game, cards 2i and 2i+1 are the unmatched Spanish and
   English cards of the i-th entry of the shuffled vocabulary, and they pair.
   */
  lemma MountedPair(vocabulary: seq<WordPair>, pairOrder: seq<nat>, cardOrder: seq<nat>, i: nat)
    requires IsPermutation(pairOrder, |vocabulary|)
    requires IsPermutation(cardOrder, 2 * PairCount(|vocabulary|))
    requires i < PairCount(|vocabulary|)
    ensures var cards := Mount(vocabulary, pairOrder, cardOrder).cards;
      var entry := vocabulary[pairOrder[i]];
      && Find(cards, 2 * i) == Some(Card(2 * i, entry.spanish, false, false, Spanish))
      && Find(cards, 2 * i + 1) == Some(Card(2 * i + 1, entry.english, false, false, English))
      && IsMatch(vocabulary, entry.spanish, entry.english)
  {
    var selected := SelectPairs(vocabulary, pairOrder);
    FreshCardLookup(vocabulary, pairOrder, cardOrder, 2 * i);
    FreshCardLookup(vocabulary, pairOrder, cardOrder, 2 * i + 1);
    DeckLayout(selected, i);
    EntryMatches(vocabulary, pairOrder[i]);
  }

  /** Turning a card face up changes nothing a lookup finds but the face-up flag. */
  lemma {:induction false} FlipLookupContent(cards: seq<Card>, flipped: int, id: int)
    ensures Find(FlipCard(cards, flipped), id).Some? == Find(cards, id).Some?
    ensures Find(cards, id).Some? ==>
      && Find(FlipCard(cards, flipped), id).value.content == Find(cards, id).value.content
      && Find(FlipCard(cards, flipped), id).value.isMatched == Find(cards, id).value.isMatched
  {
    if cards != [] {
      assert FlipCard(cards, flipped)[1..] == FlipCard(cards[1..], flipped);
      FlipLookupContent(cards[1..], flipped, id);
    }
  }
}
