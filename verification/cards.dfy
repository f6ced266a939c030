/**
 Cards of the language memory game: the vocabulary entries, the card record,
 the per-card updates the game applies to its card list, and the content test
 that decides whether two flipped cards form a pair.
 */
module Cards {

  datatype Option<T> = None | Some(value: T)

  /** A vocabulary entry: a Spanish word and its English translation. */
  datatype WordPair = WordPair(spanish: string, english: string)

  /** The language a card shows (the `type` field of a card). */
  datatype Language = Spanish | English

  /** One card on the board. */
  datatype Card = Card(id: int, content: string, isFlipped: bool, isMatched: bool, kind: Language)

  /** No two cards of the list carry the same id. */
  predicate UniqueIds(cards: seq<Card>) {
    forall i, j | 0 <= i < j < |cards| :: cards[i].id != cards[j].id
  }

  /** Every matched card is face up. */
  predicate MatchedFaceUp(cards: seq<Card>) {
    forall k | 0 <= k < |cards| :: cards[k].isMatched ==> cards[k].isFlipped
  }

  /** No card whose id is listed is matched. */
  predicate UnmatchedIds(cards: seq<Card>, ids: seq<int>) {
    forall k | 0 <= k < |cards| :: cards[k].id in ids ==> !cards[k].isMatched
  }

  /** No card with the given id is matched. */
  predicate Unmatched(cards: seq<Card>, id: int) {
    forall k | 0 <= k < |cards| :: cards[k].id == id ==> !cards[k].isMatched
  }

  /** The first card with the given id, if there is one. */
  function Find(cards: seq<Card>, id: int): (r: Option<Card>)
    ensures r.None? <==> forall k | 0 <= k < |cards| :: cards[k].id != id
    ensures r.Some? ==> r.value.id == id
  {
    if cards == [] then None
    else if cards[0].id == id then Some(cards[0])
    else Find(cards[1..], id)
  }

  /** With unique ids, looking a card up by its id gives that very card. */
  lemma {:induction false} FindUnique(cards: seq<Card>, k: int)
    requires UniqueIds(cards)
    requires 0 <= k < |cards|
    ensures Find(cards, cards[k].id) == Some(cards[k])
  {
    if k > 0 {
      assert cards[0].id != cards[k].id;
      assert cards[1..][k - 1] == cards[k];
      FindUnique(cards[1..], k - 1);
    }
  }

  /** The card a lookup finds is the first card of the list with the id. */
  lemma {:induction false} FindIndex(cards: seq<Card>, id: int) returns (k: nat)
    requires Find(cards, id).Some?
    ensures k < |cards| && cards[k] == Find(cards, id).value
    ensures forall j | 0 <= j < k :: cards[j].id != id
  {
    if cards[0].id == id {
      k := 0;
    } else {
      var rest := FindIndex(cards[1..], id);
      k := rest + 1;
    }
  }

  /** The number of matched cards in the list. */
  function MatchedCount(cards: seq<Card>): (n: nat)
    ensures n <= |cards|
  {
    if cards == [] then 0
    else (if cards[0].isMatched then 1 else 0) + MatchedCount(cards[1..])
  }

  /** The number of cards with the given id that are not yet matched. */
  function UnmatchedWithId(cards: seq<Card>, id: int): (n: nat)
    ensures n <= |cards|
  {
    if cards == [] then 0
    else (if cards[0].id == id && !cards[0].isMatched then 1 else 0) + UnmatchedWithId(cards[1..], id)
  }

  /** A list where every card is matched has as many matched cards as cards, and conversely. */
  lemma {:induction false} MatchedCountFull(cards: seq<Card>)
    ensures MatchedCount(cards) == |cards| <==> forall k | 0 <= k < |cards| :: cards[k].isMatched
  {
    if cards != [] {
      MatchedCountFull(cards[1..]);
      assert forall k | 1 <= k < |cards| :: cards[k] == cards[1..][k - 1];
    }
  }

  /** A list without any matched card has a matched count of zero. */
  lemma {:induction false} MatchedCountNone(cards: seq<Card>)
    requires forall k | 0 <= k < |cards| :: !cards[k].isMatched
    ensures MatchedCount(cards) == 0
  {
    if cards != [] {
      assert forall k | 0 <= k < |cards| - 1 :: cards[1..][k] == cards[k + 1];
      MatchedCountNone(cards[1..]);
    }
  }

  /** With unique ids, an unmatched card is the one unmatched card with its id. */
  lemma {:induction false} UnmatchedWithIdOne(cards: seq<Card>, k: int)
    requires UniqueIds(cards)
    requires 0 <= k < |cards| && !cards[k].isMatched
    ensures UnmatchedWithId(cards, cards[k].id) == 1
  {
    if k == 0 {
      UnmatchedWithIdAbsent(cards[1..], cards[0].id);
    } else {
      assert cards[0].id != cards[k].id;
      assert cards[1..][k - 1] == cards[k];
      UnmatchedWithIdOne(cards[1..], k - 1);
    }
  }

  lemma {:induction false} UnmatchedWithIdAbsent(cards: seq<Card>, id: int)
    requires forall k | 0 <= k < |cards| :: cards[k].id != id
    ensures UnmatchedWithId(cards, id) == 0
  {
    if cards != [] {
      assert forall k | 0 <= k < |cards| - 1 :: cards[1..][k] == cards[k + 1];
      UnmatchedWithIdAbsent(cards[1..], id);
    }
  }

  /** Turn face up every card with the id (the update of an accepted click). */
  function FlipCard(cards: seq<Card>, id: int): (r: seq<Card>)
    ensures |r| == |cards|
    ensures forall k {:trigger r[k]} | 0 <= k < |cards| ::
      r[k] == if cards[k].id == id then cards[k].(isFlipped := true) else cards[k]
    ensures MatchedCount(r) == MatchedCount(cards)
  {
    if cards == [] then []
    else [if cards[0].id == id then cards[0].(isFlipped := true) else cards[0]] + FlipCard(cards[1..], id)
  }

  /** Mark the cards with either id as flipped and matched (the update of a found pair). */
  function MarkMatched(cards: seq<Card>, first: int, second: int): (r: seq<Card>)
    ensures |r| == |cards|
    ensures forall k {:trigger r[k]} | 0 <= k < |cards| ::
      r[k] == if cards[k].id == first || cards[k].id == second
              then cards[k].(isFlipped := true, isMatched := true) else cards[k]
  {
    if cards == [] then []
    else [if cards[0].id == first || cards[0].id == second
          then cards[0].(isFlipped := true, isMatched := true) else cards[0]]
         + MarkMatched(cards[1..], first, second)
  }

  /** Marking two ids matched adds exactly the cards with those ids that were still unmatched. */
  lemma {:induction false} MarkMatchedCount(cards: seq<Card>, first: int, second: int)
    requires first != second
    ensures MatchedCount(MarkMatched(cards, first, second))
         == MatchedCount(cards) + UnmatchedWithId(cards, first) + UnmatchedWithId(cards, second)
  {
    if cards != [] {
      assert MarkMatched(cards, first, second)[1..] == MarkMatched(cards[1..], first, second);
      MarkMatchedCount(cards[1..], first, second);
    }
  }

  /** On a list with unique ids, matching two distinct unmatched cards raises the matched count by two. */
  lemma MatchPairCount(cards: seq<Card>, i: int, j: int)
    requires UniqueIds(cards)
    requires 0 <= i < |cards| && 0 <= j < |cards| && i != j
    requires !cards[i].isMatched && !cards[j].isMatched
    ensures MatchedCount(MarkMatched(cards, cards[i].id, cards[j].id)) == MatchedCount(cards) + 2
  {
    MarkMatchedCount(cards, cards[i].id, cards[j].id);
    UnmatchedWithIdOne(cards, i);
    UnmatchedWithIdOne(cards, j);
  }

  /** Turn face down the cards with either id (the deferred revert of a mismatch). */
  function FlipBack(cards: seq<Card>, first: int, second: int): (r: seq<Card>)
    ensures |r| == |cards|
    ensures forall k {:trigger r[k]} | 0 <= k < |cards| ::
      r[k] == if cards[k].id == first || cards[k].id == second
              then cards[k].(isFlipped := false) else cards[k]
    ensures MatchedCount(r) == MatchedCount(cards)
  {
    if cards == [] then []
    else [if cards[0].id == first || cards[0].id == second
          then cards[0].(isFlipped := false) else cards[0]]
         + FlipBack(cards[1..], first, second)
  }

  /** The unmatched cards with the given id, as a guard that looked the id up saw them. */
  lemma LookupUnmatched(cards: seq<Card>, id: int)
    requires UniqueIds(cards)
    requires !(Find(cards, id).Some? && Find(cards, id).value.isMatched)
    ensures Unmatched(cards, id)
  {
    forall k | 0 <= k < |cards| && cards[k].id == id ensures !cards[k].isMatched {
      FindUnique(cards, k);
    }
  }

  /** Turning a card face up keeps the ids distinct, the matched cards face up and the unmatched ones unmatched. */
  lemma FlipCardKeeps(cards: seq<Card>, id: int, ids: seq<int>)
    requires UniqueIds(cards) && MatchedFaceUp(cards) && UnmatchedIds(cards, ids)
    ensures var r := FlipCard(cards, id);
      && UniqueIds(r) && MatchedFaceUp(r) && UnmatchedIds(r, ids)
      && (forall x | Unmatched(cards, x) :: Unmatched(r, x))
      && forall k | 0 <= k < |cards| :: r[k].id == cards[k].id
  {
    var r := FlipCard(cards, id);
    assert forall k | 0 <= k < |cards| :: r[k].id == cards[k].id && r[k].isMatched == cards[k].isMatched;
  }

  /** Matching two ids keeps the ids distinct and every matched card face up. */
  lemma MarkMatchedKeeps(cards: seq<Card>, first: int, second: int)
    requires UniqueIds(cards) && MatchedFaceUp(cards)
    ensures var r := MarkMatched(cards, first, second);
      UniqueIds(r) && MatchedFaceUp(r)
  {
    var r := MarkMatched(cards, first, second);
    assert forall k | 0 <= k < |cards| :: r[k].id == cards[k].id;
  }

  /**
   Turning two unmatched ids face down keeps the ids distinct, the matched
   cards face up, the unmatched ones unmatched, and leaves every matched card as it was.
   */
  lemma FlipBackKeeps(cards: seq<Card>, first: int, second: int, ids: seq<int>)
    requires UniqueIds(cards) && MatchedFaceUp(cards) && UnmatchedIds(cards, ids)
    requires Unmatched(cards, first) && Unmatched(cards, second)
    ensures var r := FlipBack(cards, first, second);
      && UniqueIds(r) && MatchedFaceUp(r) && UnmatchedIds(r, ids)
      && forall k | 0 <= k < |cards| :: cards[k].isMatched ==> r[k] == cards[k]
  {
    var r := FlipBack(cards, first, second);
    assert forall k | 0 <= k < |cards| :: r[k].id == cards[k].id && r[k].isMatched == cards[k].isMatched;
  }

  /**
   Turning the second card face up and then matching it with the first keeps
   the ids distinct and the matched cards face up, and adds two matched cards.
   */
  lemma MatchPairKeeps(cards: seq<Card>, first: int, second: int)
    requires UniqueIds(cards) && MatchedFaceUp(cards) && Unmatched(cards, first) && Unmatched(cards, second)
    requires first != second && Find(cards, first).Some? && Find(cards, second).Some?
    ensures var r := MarkMatched(FlipCard(cards, second), first, second);
      && |r| == |cards| && UniqueIds(r) && MatchedFaceUp(r)
      && MatchedCount(r) == MatchedCount(cards) + 2
      && forall k | 0 <= k < |cards| && (cards[k].id == first || cards[k].id == second) ::
           r[k].isFlipped && r[k].isMatched
  {
    var flipped := FlipCard(cards, second);
    FlipCardKeeps(cards, second, []);
    var i := FindIndex(cards, first);
    var j := FindIndex(cards, second);
    assert flipped[i].id == first && !flipped[i].isMatched;
    assert flipped[j].id == second && !flipped[j].isMatched;
    MatchPairCount(flipped, i, j);
    MarkMatchedKeeps(flipped, first, second);
    var r := MarkMatched(flipped, first, second);
    forall k | 0 <= k < |cards| && (cards[k].id == first || cards[k].id == second)
      ensures r[k].isFlipped && r[k].isMatched
    {
      assert flipped[k].id == cards[k].id;
    }
  }

  /** Turning a pair face down undoes turning the second of them face up. */
  lemma FlipBackAfterFlip(cards: seq<Card>, first: int, second: int)
    ensures FlipBack(FlipCard(cards, second), first, second) == FlipBack(cards, first, second)
  {
    var f := FlipCard(cards, second);
    assert forall k | 0 <= k < |cards| :: f[k].id == cards[k].id;
  }

  /** The vocabulary entry joins the two contents, in either order of languages. */
  predicate Joins(pair: WordPair, x: string, y: string) {
    (x == pair.spanish && y == pair.english) || (x == pair.english && y == pair.spanish)
  }

  /**
   The match test of a click on a second card: some entry of the WHOLE
   vocabulary joins the two contents. Only contents are compared; the
   language of the cards plays no part.
   */
  function IsMatch(vocabulary: seq<WordPair>, x: string, y: string): (r: bool)
    ensures r <==> exists i | 0 <= i < |vocabulary| :: Joins(vocabulary[i], x, y)
  {
    if vocabulary == [] then false
    else Joins(vocabulary[0], x, y) || IsMatch(vocabulary[1..], x, y)
  }

  /** The match test gives the same answer for (first, second) as for (second, first). */
  lemma {:induction false} IsMatchSymmetric(vocabulary: seq<WordPair>, x: string, y: string)
    ensures IsMatch(vocabulary, x, y) == IsMatch(vocabulary, y, x)
  {
    if vocabulary != [] {
      IsMatchSymmetric(vocabulary[1..], x, y);
    }
  }

  /** The two words of any vocabulary entry pass the match test, in both orders. */
  lemma EntryMatches(vocabulary: seq<WordPair>, i: int)
    requires 0 <= i < |vocabulary|
    ensures IsMatch(vocabulary, vocabulary[i].spanish, vocabulary[i].english)
    ensures IsMatch(vocabulary, vocabulary[i].english, vocabulary[i].spanish)
  {
    assert Joins(vocabulary[i], vocabulary[i].spanish, vocabulary[i].english);
    assert Joins(vocabulary[i], vocabulary[i].english, vocabulary[i].spanish);
  }

  /**
   Two Spanish cards can pass the match test: with entries ("sol", "sun") and
   ("sun", "dia"), the Spanish words "sol" and "sun" are joined by the first entry.
   */
  lemma SameLanguageCanMatch()
    ensures IsMatch([WordPair("sol", "sun"), WordPair("sun", "dia")], "sol", "sun")
  {
    assert Joins(WordPair("sol", "sun"), "sol", "sun");
  }

  /**
   Two cards can pass the match test through an entry that is not on the board:
   the board holds only the first entry, yet "luna" and "moon" match.
   */
  lemma UnselectedEntryMatches()
    ensures var vocabulary := [WordPair("sol", "sun"), WordPair("luna", "moon")];
            IsMatch(vocabulary, "luna", "moon") && !IsMatch(vocabulary[..1], "luna", "moon")
  {
    var vocabulary := [WordPair("sol", "sun"), WordPair("luna", "moon")];
    assert Joins(vocabulary[1], "luna", "moon");
    assert !Joins(vocabulary[..1][0], "luna", "moon");
  }
}
