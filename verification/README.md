# Language memory game — a verified model of the game session

The game shows a board of face-down cards. Each card carries either the Spanish or the English word of a vocabulary entry. The player turns two cards over at a time:

- If some vocabulary entry joins their two words, the pair stays face up as matched, the score rises by 100, and the match count rises.
- Otherwise the score drops by 10, never below 0, and the two cards turn face down again one second later.

A one-second countdown, starting at 90, ends the game at 0, and so does a score of 0. The game is won when the match count reaches the size of the vocabulary.

This project models the session kept by the `MemoryGame` component (`src/components/MemoryGame.tsx`) in four modules:

- `Cards` (`cards.dfy`): the card record (`CardType`), the vocabulary entry, the three per-card updates the component applies to its card list (turn face up, mark matched, turn face down), the lookup by id, and the match test.
- `Decks` (`decks.dfy`): deck construction at the start of a game. It shuffles the vocabulary, keeps the first eight entries, pushes two cards per entry, and shuffles the cards. A shuffle is a permutation of positions given as a parameter. The push loop is the method `BuildDeck`, proved equal to the recursive definition `Deck`.
- `Rules` (`rules.dfy`): the session state as a value `Game`, and each event as a function on it: `Click`, `Tick`, `ScoreEffect`, the two deferred timeouts `RevertMismatch` and `EndChecking`, `Restart` and `Mount`. It also holds the session invariant `Inv`, the lemmas that every event keeps it, and the lemmas stating what each event promises.
- `MemoryGame` (`session.dfy`): the class `Session`. Its fields are the component's state variables. Every event the browser delivers is a method that the environment calls explicitly: a click, an interval tick, a timeout firing, the score watcher running after a render, and a restart. Each method is proved to move the object's state (`Snapshot()`) exactly as the matching `Rules` function does and to keep `Valid()`. Through those functions, the method inherits every lemma proved in `Rules`.

Deferred work is modelled explicitly. A click on a second card schedules callbacks with `setTimeout(…, 1000)`. The model records them in a ghost field `pending`, in firing order; all of them share one delay, so they fire in the order they were scheduled. `RevertMismatch` and `EndChecking` may only run when their own callback is the next one due. This is what makes "a matched card is never turned back" provable. It holds only because the checking flag keeps clicks out until the scheduled callbacks have run.

The model keeps these behaviours of the code as they are:

- **Match test.** The test searches the whole vocabulary, not only the eight entries on the board, and it ignores the cards' language tags. `Cards.SameLanguageCanMatch` and `Cards.UnselectedEntryMatches` exhibit both effects.
- **Win test.** The test compares the match count with the size of the whole vocabulary, not with the number of pairs on the board. A vocabulary of more than eight entries therefore can never be won (`Rules.WinNeedsWholeVocabulary`).
- **Restart.** A restart does not reset the checking flag. Timeouts scheduled before it still fire on the new deck.
- **Missing card.** A click whose two flipped ids cannot both be found on the rendered board sets the checking flag and schedules nothing, so no later click is ever accepted. The model states this case instead of excluding it by a precondition. `ClickCard` accepts any id, as the event handler does.

## Model

| member | source | states |
|---|---|---|
| Cards.Find | src/components/MemoryGame.tsx:101 | the lookup by id finds nothing exactly when no card has the id, and otherwise a card with that id (that it is the first such card of the list is `Cards.FindIndex`) |
| Cards.FindIndex | src/components/MemoryGame.tsx:101 | the card the lookup finds is an element of the list, and no earlier card has the id, as `Array.prototype.find` returns the first match |
| Cards.FindUnique | src/components/MemoryGame.tsx:120-121 | with distinct ids, the lookup by a card's id returns that very card |
| Cards.FlipCard | src/components/MemoryGame.tsx:111-115 | only the cards with the clicked id turn face up, every other card is unchanged, and the length and the matched count stay |
| Cards.MarkMatched | src/components/MemoryGame.tsx:134-140 | exactly the cards with either id become flipped and matched; every other card is unchanged |
| Cards.FlipBack | src/components/MemoryGame.tsx:155-161 | exactly the cards with either id turn face down, their matched flag stays, and every other card is unchanged |
| Cards.MatchPairKeeps | src/components/MemoryGame.tsx:111-140 | turning the second card up and then matching two distinct unmatched ids keeps ids distinct and matched cards face up, leaves both cards flipped and matched, and adds exactly two matched cards |
| Cards.FlipBackKeeps | src/components/MemoryGame.tsx:155-161 | turning two unmatched ids face down keeps ids distinct and matched cards face up, and never changes a matched card |
| Cards.FlipBackAfterFlip | src/components/MemoryGame.tsx:111-161 | the deferred revert undoes the face-up turn of the second card |
| Cards.MatchedCountFull | src/components/MemoryGame.tsx:141-147 | the matched count equals the number of cards exactly when every card is matched |
| Cards.IsMatch | src/components/MemoryGame.tsx:124-130 | two contents match exactly when some vocabulary entry has one as its Spanish and the other as its English word, in either order |
| Cards.IsMatchSymmetric | src/components/MemoryGame.tsx:124-130 | the match test gives the same answer for (first, second) and (second, first) |
| Cards.EntryMatches | src/components/MemoryGame.tsx:124-130 | the two words of any vocabulary entry match, in both orders |
| Cards.SameLanguageCanMatch | src/components/MemoryGame.tsx:124-130 | two words that are both Spanish can pass the match test: the language tag plays no part |
| Cards.UnselectedEntryMatches | src/components/MemoryGame.tsx:124-130 | two words match through an entry that is not among those on the board |
| Decks.PairCount | src/components/MemoryGame.tsx:41 | a game uses eight entries, or all of them when the vocabulary is smaller |
| Decks.SelectPairs | src/components/MemoryGame.tsx:40-41 | the selection has min(8, vocabulary size) entries, the i-th being the vocabulary entry the shuffle puts at position i |
| Decks.SelectPairsDrawn | src/components/MemoryGame.tsx:40-41 | the selected entries are drawn from the vocabulary without repetition |
| Decks.PermutedMultiset | src/components/MemoryGame.tsx:40-60 | a shuffle keeps every element, as often as before |
| Decks.Permute | src/components/MemoryGame.tsx:40-60 | a shuffle by a list of positions has one element per position (that it keeps every element is `Decks.PermutedMultiset`) |
| Decks.Deck | src/components/MemoryGame.tsx:43-59 | the unshuffled deck has two cards per selected entry (their layout is `Decks.DeckLayout`) |
| Decks.DeckLayout | src/components/MemoryGame.tsx:43-59 | the entry at position i yields card 2i (Spanish word, type Spanish) and card 2i+1 (English word, type English), both face down and unmatched |
| Decks.DeckFresh | src/components/MemoryGame.tsx:43-59 | every card of a fresh deck is face down and unmatched and has its position as id, so ids are distinct and the matched count is 0 |
| Decks.BuildDeck | src/components/MemoryGame.tsx:43-59 | the push loop builds exactly the deck `Deck` defines (two cards per entry, in order) |
| Decks.ShuffledDeckFresh | src/components/MemoryGame.tsx:60 | the shuffled deck holds the same cards, with distinct ids, all face down and unmatched |
| Rules.Penalized | src/components/MemoryGame.tsx:153 | a mismatch costs ten points but the score never goes below zero |
| Rules.Rejects | src/components/MemoryGame.tsx:97-105 | the guard of a click: over or won, checking, already flipped, matched, or two cards flipped (that a rejected click changes nothing is `Rules.RejectedState`) |
| Rules.Accept | src/components/MemoryGame.tsx:108-115 | an accepted click appends the id to the flipped list and changes only the face-up flags of the cards; ids, matched flags, the matched count and every other field stay |
| Rules.Compare | src/components/MemoryGame.tsx:117-166 | comparing the two flipped cards empties the flipped list, starts the check, raises the match count by at most one, keeps a non-negative score non-negative, and leaves timer and game-over flag |
| Rules.Click | src/components/MemoryGame.tsx:96-168 | a click keeps the number of cards, the timer and the game-over flag, never lets the flipped list exceed one id between clicks, raises the match count by at most one and keeps a non-negative score non-negative |
| Rules.MatchState | src/components/MemoryGame.tsx:117-150 | the exact state after the second card of a found pair: the pair matched, flipped list empty, check started, matches and score raised, win flag by the vocabulary size, end of check scheduled |
| Rules.MismatchState | src/components/MemoryGame.tsx:117-166 | the exact state after the second card of a mismatch: the target face up, flipped list empty, check started, score penalized, revert and end of check scheduled |
| Rules.EndChecking | src/components/MemoryGame.tsx:164 | the end-of-check timeout clears the checking flag, leaves cards and flipped list, and is removed from the waiting timeouts |
| Rules.RevertMismatch | src/components/MemoryGame.tsx:154-162 | the revert timeout changes only face-up flags (ids, matched flags and the matched count stay) and is removed from the waiting timeouts |
| Rules.Restart | src/components/MemoryGame.tsx:38-67 | a restart deals a full deck of twice the selected entries and keeps the checking flag and the waiting timeouts (the resets and the invariant are `Rules.RestartKeepsInv`) |
| Rules.Mount | src/components/MemoryGame.tsx:23-71 | the mounted game has a full deck, the timer at 90 after the mount effect, no check running and no timeout waiting |
| Rules.Tick | src/components/MemoryGame.tsx:74-84 | a tick decrements a timer above 1 by exactly 1, sets timer 0 and game over at 1 or below, does nothing once the game is over or won, and changes nothing but the timer and the game-over flag |
| Rules.ScoreEffect | src/components/MemoryGame.tsx:90-94 | the score watcher sets game over exactly when the score is at most 0, and changes nothing else |
| Rules.ZeroScoreEndsGame | src/components/MemoryGame.tsx:90-94 | a score of zero ends the game once the watcher has run |
| Rules.RestartKeepsInv | src/components/MemoryGame.tsx:38-67 | a restart deals a permutation of the freshly built deck, all face down and unmatched; resets flipped list, matches, score 100, timer 90, game-over and win flags; keeps the checking flag and the scheduled timeouts; and establishes the invariant |
| Rules.MountInv | src/components/MemoryGame.tsx:23-71 | the mounted game satisfies the invariant, with nothing flipped, no check running, no timeouts, matches 0, score 100, timer 90 |
| Rules.ClickKeepsInv | src/components/MemoryGame.tsx:96-168 | every click keeps the invariant: distinct ids, at most one id flipped between clicks, matched cards face up, twice the match count equals the matched cards, score and timer non-negative |
| Rules.FirstFlipKeepsInv | src/components/MemoryGame.tsx:106-115 | an accepted first click of a pair keeps the invariant |
| Rules.MatchKeepsInv | src/components/MemoryGame.tsx:117-150 | a second click on the partner keeps the invariant and adds two matched cards |
| Rules.MismatchKeepsInv | src/components/MemoryGame.tsx:117-166 | a second click on a non-partner keeps the invariant |
| Rules.MissingCardKeepsInv | src/components/MemoryGame.tsx:117-166 | a second click whose cards cannot both be found keeps the invariant |
| Rules.RejectedState | src/components/MemoryGame.tsx:97-105 | a click while over or won, while checking, on a flipped or matched card, or with two cards flipped changes nothing |
| Rules.MissingCardState | src/components/MemoryGame.tsx:117-166 | when a card of the pair is not found, the target turns face up, the flipped list empties, the check starts and no timeout is scheduled |
| Rules.FirstFlipState | src/components/MemoryGame.tsx:107-115 | the first card of a pair only turns face up and joins the flipped list |
| Rules.SecondClickUnmatched | src/components/MemoryGame.tsx:98-105 | both cards of an accepted second click are distinct and unmatched |
| Rules.TerminalIsFinal | src/components/MemoryGame.tsx:74-97 | once the game is over or won, neither a click nor a tick changes anything |
| Rules.AcceptedClickFlipsTarget | src/components/MemoryGame.tsx:106-166 | an accepted click turns the target face up and no other card except the already flipped one; the flipped list becomes the target alone after a first click and is emptied after a second; timer and game-over flag stay |
| Rules.ClickKeepsMatched | src/components/MemoryGame.tsx:96-168 | no click changes a matched card |
| Rules.MatchOutcome | src/components/MemoryGame.tsx:132-164 | on a match both cards end flipped and matched, matches rise by exactly 1, score by exactly 100, the win flag is set exactly when the new match count equals the vocabulary size, and only the end-of-check timeout is scheduled |
| Rules.MismatchOutcome | src/components/MemoryGame.tsx:151-164 | on a mismatch the score becomes max(score - 10, 0), matches stay, and the revert of the two cards then the end of the check are scheduled |
| Rules.MismatchRoundTrip | src/components/MemoryGame.tsx:151-164 | a mismatch followed by its two timeouts turns exactly the two cards face down, leaves every other card as before the pair, keeps the penalty, accepts clicks again and keeps the invariant |
| Rules.RevertKeepsInv | src/components/MemoryGame.tsx:154-162 | the deferred revert keeps the invariant and never changes a matched card |
| Rules.EndCheckingKeepsInv | src/components/MemoryGame.tsx:164 | the end-of-check timeout keeps the invariant and is the last one due |
| Rules.TickKeepsInv | src/components/MemoryGame.tsx:76-84 | a tick keeps the invariant, so the timer never goes negative |
| Rules.ScoreEffectKeepsInv | src/components/MemoryGame.tsx:90-94 | the score watcher keeps the invariant |
| Rules.WinNeedsWholeVocabulary | src/components/MemoryGame.tsx:141-147 | the match count never exceeds the pairs on the board; a won game has every card matched and a vocabulary of at most eight entries |
| Rules.FreshCardLookup | src/components/MemoryGame.tsx:43-101 | in a fresh game the lookup of id k finds the k-th card of the built deck |
| Rules.MountedPair | src/components/MemoryGame.tsx:40-130 | in a fresh game, ids 2i and 2i+1 are the unmatched Spanish and English cards of the i-th shuffled entry, and they match |
| Rules.FirstOfPair | src/components/MemoryGame.tsx:97-115 | after the first click of a pair, the second card is still accepted and both are found with their words |
| Rules.PairClicks | src/components/MemoryGame.tsx:96-150 | clicking two unmatched cards whose words form an entry matches both, raises matches by 1 and score by 100, and wins exactly when the new count equals the vocabulary size |
| Rules.FreshPairScenario | src/components/MemoryGame.tsx:38-150 | in a fresh game, clicking cards 2i and 2i+1 gives one match and score 200, and wins only with a one-entry vocabulary |
| Rules.FlipLookupContent | src/components/MemoryGame.tsx:111-121 | turning a card face up changes nothing a lookup finds but the face-up flag |
| MemoryGame.Session.constructor | src/components/MemoryGame.tsx:23-71 | a new session is the mounted game over the given vocabulary and satisfies the invariant |
| MemoryGame.Session.InitializeGame | src/components/MemoryGame.tsx:38-67 | the new state is the restart of the old one and satisfies the invariant |
| MemoryGame.Session.Tick | src/components/MemoryGame.tsx:76-84 | the new state is the tick of the old one and keeps the invariant |
| MemoryGame.Session.ScoreEffect | src/components/MemoryGame.tsx:90-94 | the new state is the score watcher's step and keeps the invariant |
| MemoryGame.Session.ClickCard | src/components/MemoryGame.tsx:96-168 | the new state is the click of the old one and keeps the invariant |
| MemoryGame.Session.FlipClicked | src/components/MemoryGame.tsx:108-115 | the target turns face up and joins the flipped list; nothing else changes |
| MemoryGame.Session.ComparePair | src/components/MemoryGame.tsx:117-166 | the two flipped cards, looked up on the board as rendered before the click, are compared as `Rules.Compare` defines |
| MemoryGame.Session.RecordMatch | src/components/MemoryGame.tsx:134-150 | both cards are marked matched, matches rise by 1, score by 100, and the win flag is set when the new count equals the vocabulary size |
| MemoryGame.Session.RecordMismatch | src/components/MemoryGame.tsx:152-162 | the score is penalized and the revert of the two cards is scheduled |
| MemoryGame.Session.EndChecking | src/components/MemoryGame.tsx:164 | the new state is the end-of-check step and keeps the invariant |
| MemoryGame.Session.RevertMismatch | src/components/MemoryGame.tsx:154-162 | the new state is the deferred revert and keeps the invariant |

## Left out

- Sound playback (lines 107, 133, 144, 152) and the win toast (146) are user-interface effects with no bearing on the state.
- The JSX, framer-motion animations and the header and footer components (32-36, 170 onward) are rendering only.
- Real time is not modelled. The timing of `setInterval`/`setTimeout`, clearing and restarting the interval, and React's batching of updates are left out. Each callback is a method the environment calls, and a tick is only possible while the game is neither over nor won.
- The randomness of `shuffle` is not modelled. `src/utils/gameUtils` is not part of this model, and each shuffle is given as a permutation of positions.
- The contents of `wordPairs.json` are not part of this model; the vocabulary is a parameter.
- `src/utils/api.ts` and `src/utils/analytics.ts` are network calls, `src/utils/soundUtils.ts` is browser audio, and `src/utils/lambdaConfig.ts` is a constant configuration. None of them takes part in the rules.
- JavaScript numbers are modelled as unbounded integers. Scores and counters stay far below the range where floating-point rounding matters.
