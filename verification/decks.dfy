/**
 Deck construction at the start of a game: the vocabulary is shuffled, the
 first eight entries are taken, two cards are built per entry, and the cards
 are shuffled. A shuffle is given as the permutation of positions it applies.
 */
module Decks {
  import opened Cards

  /** How many vocabulary entries one game uses. */
  const PairsPerGame: nat := 8

  /** The number of entries taken from a vocabulary of the given size. */
  function PairCount(vocabularySize: nat): (n: nat)
    ensures n <= vocabularySize && n <= PairsPerGame
    ensures n == vocabularySize || n == PairsPerGame
  {
    if vocabularySize < PairsPerGame then vocabularySize else PairsPerGame
  }

  /** `p` lists every position below `n` exactly once. */
  predicate IsPermutation(p: seq<nat>, n: nat) {
    && |p| == n
    && InRange(p, n)
    && (forall i, j | 0 <= i < j < |p| :: p[i] != p[j])
    && (forall v | 0 <= v < n :: Occurs(p, v))
  }

  /** Every element of `p` is below `n`. */
  predicate InRange(p: seq<nat>, n: nat) {
    forall i | 0 <= i < |p| :: p[i] < n
  }

  /** The value occurs somewhere in the sequence. */
  predicate Occurs(p: seq<nat>, v: nat) {
    v in p
  }

  /** The sequence whose i-th element is `s[p[i]]`: the result of a shuffle. */
  function Permute<T>(s: seq<T>, p: seq<nat>): (r: seq<T>)
    requires InRange(p, |s|)
    ensures |r| == |p|
  {
    seq(|p|, i requires 0 <= i < |p| => s[p[i]])
  }

  /** Dropping the position that holds the largest value leaves a permutation of the values below it. */
  lemma DropLast(p: seq<nat>, n: nat, j: int)
    requires IsPermutation(p, n + 1)
    requires 0 <= j < |p| && p[j] == n
    ensures IsPermutation(p[..j] + p[j + 1..], n)
  {
    var q := p[..j] + p[j + 1..];
    assert forall i | 0 <= i < |q| :: q[i] == if i < j then p[i] else p[i + 1];
    forall v | 0 <= v < n ensures Occurs(q, v) {
      assert Occurs(p, v);
      var i :| 0 <= i < |p| && p[i] == v;
      assert i != j;
      if i < j { assert q[i] == v; } else { assert q[i - 1] == v; }
      assert v in q;
    }
  }

  /** Shuffling with `p` equals shuffling the shorter input with `p` less position j, then inserting the last element at j. */
  lemma PermuteSplit<T>(s: seq<T>, p: seq<nat>, j: int)
    requires |s| > 0 && InRange(p, |s|)
    requires 0 <= j < |p| && p[j] == |s| - 1
    requires InRange(p[..j] + p[j + 1..], |s| - 1)
    ensures var rq := Permute(s[..|s| - 1], p[..j] + p[j + 1..]);
      Permute(s, p) == rq[..j] + [s[|s| - 1]] + rq[j..]
  {
    var n := |s| - 1;
    var q := p[..j] + p[j + 1..];
    var rq := Permute(s[..n], q);
    var r := Permute(s, p);
    var w := rq[..j] + [s[n]] + rq[j..];
    assert |w| == |r|;
    forall i | 0 <= i < |r| ensures r[i] == w[i] {
      if i < j {
        assert q[i] == p[i];
      } else if i > j {
        assert q[i - 1] == p[i];
      }
    }
  }

  /** Where a permutation puts a given value. */
  lemma PositionOf(p: seq<nat>, n: nat, v: nat) returns (j: int)
    requires IsPermutation(p, n) && v < n
    ensures 0 <= j < |p| && p[j] == v
  {
    assert Occurs(p, v);
    j :| 0 <= j < |p| && p[j] == v;
  }

  /** A shuffle rearranges its input: the result holds the same elements, as often. */
  lemma {:induction false} PermutedMultiset<T>(s: seq<T>, p: seq<nat>)
    requires IsPermutation(p, |s|)
    ensures multiset(Permute(s, p)) == multiset(s)
    decreases |s|
  {
    if |s| == 0 {
      assert Permute(s, p) == [];
    } else {
      var j := PositionOf(p, |s|, |s| - 1);
      DropLast(p, |s| - 1, j);
      PermutedMultiset(s[..|s| - 1], p[..j] + p[j + 1..]);
      PermutedMultisetStep(s, p, j);
    }
  }

  /** The induction step: the rearrangement of all but the last element extends to the whole input. */
  lemma PermutedMultisetStep<T>(s: seq<T>, p: seq<nat>, j: int)
    requires |s| > 0 && InRange(p, |s|)
    requires 0 <= j < |p| && p[j] == |s| - 1
    requires InRange(p[..j] + p[j + 1..], |s| - 1)
    requires multiset(Permute(s[..|s| - 1], p[..j] + p[j + 1..])) == multiset(s[..|s| - 1])
    ensures multiset(Permute(s, p)) == multiset(s)
  {
    var n := |s| - 1;
    PermuteSplit(s, p, j);
    InsertMultiset(Permute(s[..n], p[..j] + p[j + 1..]), Permute(s, p), s[..n], j, s[n]);
    LastSplit(s);
  }

  /** Inserting one element anywhere into a rearrangement of t gives a rearrangement of t and the element. */
  lemma InsertMultiset<T>(r: seq<T>, inserted: seq<T>, t: seq<T>, j: int, x: T)
    requires multiset(r) == multiset(t) && 0 <= j <= |r|
    requires inserted == r[..j] + [x] + r[j..]
    ensures multiset(inserted) == multiset(t) + multiset{x}
  {
    assert r == r[..j] + r[j..];
  }

  /** A non-empty sequence holds its front and its last element. */
  lemma LastSplit<T>(s: seq<T>)
    requires |s| > 0
    ensures multiset(s) == multiset(s[..|s| - 1]) + multiset{s[|s| - 1]}
  {
    assert s == s[..|s| - 1] + [s[|s| - 1]];
  }

  /**
   The entries a game uses: the first eight of the shuffled vocabulary, or all
   of them when it holds fewer.
   */
  function SelectPairs(vocabulary: seq<WordPair>, order: seq<nat>): (r: seq<WordPair>)
    requires IsPermutation(order, |vocabulary|)
    ensures |r| == PairCount(|vocabulary|)
    ensures forall i | 0 <= i < |r| :: r[i] == vocabulary[order[i]]
  {
    Permute(vocabulary, order)[..PairCount(|vocabulary|)]
  }

  /** The selected entries are drawn from the vocabulary without repetition. */
  lemma SelectPairsDrawn(vocabulary: seq<WordPair>, order: seq<nat>)
    requires IsPermutation(order, |vocabulary|)
    ensures multiset(SelectPairs(vocabulary, order)) <= multiset(vocabulary)
  {
    var shuffled := Permute(vocabulary, order);
    PermutedMultiset(vocabulary, order);
    var n := PairCount(|vocabulary|);
    assert shuffled == shuffled[..n] + shuffled[n..];
    assert multiset(shuffled) == multiset(shuffled[..n]) + multiset(shuffled[n..]);
  }

  /** The two cards built for the entry at the given position of the selection. */
  function PairCards(pair: WordPair, index: nat): seq<Card> {
    [ Card(2 * index, pair.spanish, false, false, Spanish),
      Card(2 * index + 1, pair.english, false, false, English) ]
  }

  /** The unshuffled deck: the cards of each selected entry, appended in selection order. */
  function Deck(pairs: seq<WordPair>): (d: seq<Card>)
    ensures |d| == 2 * |pairs|
  {
    if pairs == [] then []
    else Deck(pairs[..|pairs| - 1]) + PairCards(pairs[|pairs| - 1], |pairs| - 1)
  }

  /**
   The entry at position i of the selection yields card 2i, face down and
   unmatched, with the Spanish word, and card 2i+1 with the English word.
   */
  lemma {:induction false} DeckLayout(pairs: seq<WordPair>, i: int)
    requires 0 <= i < |pairs|
    ensures Deck(pairs)[2 * i] == Card(2 * i, pairs[i].spanish, false, false, Spanish)
    ensures Deck(pairs)[2 * i + 1] == Card(2 * i + 1, pairs[i].english, false, false, English)
  {
    var last := |pairs| - 1;
    var front := pairs[..last];
    assert Deck(pairs) == Deck(front) + PairCards(pairs[last], last);
    if i < last {
      DeckLayout(front, i);
      assert front[i] == pairs[i];
    }
  }

  /** Every card of a fresh deck is face down, unmatched and carries its position as id. */
  lemma DeckFresh(pairs: seq<WordPair>)
    ensures forall k | 0 <= k < |Deck(pairs)| ::
      Deck(pairs)[k].id == k && !Deck(pairs)[k].isFlipped && !Deck(pairs)[k].isMatched
    ensures UniqueIds(Deck(pairs))
    ensures MatchedCount(Deck(pairs)) == 0
  {
    var d := Deck(pairs);
    forall k | 0 <= k < |d| ensures d[k].id == k && !d[k].isFlipped && !d[k].isMatched {
      DeckLayout(pairs, k / 2);
      assert k == 2 * (k / 2) || k == 2 * (k / 2) + 1;
    }
    MatchedCountNone(d);
  }

  /** The deck-building loop: push the Spanish and then the English card of each entry. */
  method BuildDeck(pairs: seq<WordPair>) returns (deck: seq<Card>)
    ensures deck == Deck(pairs)
  {
    deck := [];
    var index := 0;
    while index < |pairs|
      invariant 0 <= index <= |pairs|
      invariant deck == Deck(pairs[..index])
    {
      assert pairs[..index + 1][..index] == pairs[..index];
      deck := deck + [Card(2 * index, pairs[index].spanish, false, false, Spanish)];
      deck := deck + [Card(2 * index + 1, pairs[index].english, false, false, English)];
      index := index + 1;
    }
    assert pairs[..|pairs|] == pairs;
  }

  /** A shuffled fresh deck: still face down, unmatched, with distinct ids. */
  lemma ShuffledDeckFresh(pairs: seq<WordPair>, order: seq<nat>)
    requires IsPermutation(order, 2 * |pairs|)
    ensures var cards := Permute(Deck(pairs), order);
      && multiset(cards) == multiset(Deck(pairs))
      && UniqueIds(cards)
      && MatchedCount(cards) == 0
      && forall k | 0 <= k < |cards| :: !cards[k].isFlipped && !cards[k].isMatched
  {
    var d := Deck(pairs);
    DeckFresh(pairs);
    PermutedMultiset(d, order);
    var cards := Permute(d, order);
    assert forall k | 0 <= k < |cards| :: cards[k] == d[order[k]];
    MatchedCountNone(cards);
  }
}
