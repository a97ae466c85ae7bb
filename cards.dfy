/** The pure part of the card counter: the Hi-Lo table, the 52-card deck built
    from ranks and suits, and the running-count sums over a deck. */
module Cards {

  /** Ranks in the order the deck comprehension walks them. */
  const Ranks: seq<string> := ["2", "3", "4", "5", "6", "7", "8", "9", "10", "J", "Q", "K", "A"]

  /** Suits in the order the deck comprehension walks them. */
  const Suits: seq<string> := ["H", "D", "C", "S"]

  /** The Hi-Lo point value of each rank. */
  const HiLoValues: map<string, int> :=
    map["2" := 1, "3" := 1, "4" := 1, "5" := 1, "6" := 1,
        "7" := 0, "8" := 0, "9" := 0,
        "10" := -1, "J" := -1, "Q" := -1, "K" := -1, "A" := -1]

  /** Looks a rank up in the Hi-Lo table. */
  function HiLoValue(rank: string): (v: int)
    requires rank in HiLoValues
    ensures -1 <= v <= 1
  {
    HiLoValues[rank]
  }

  /** Low cards (2 to 6) count +1, middle cards (7 to 9) 0, and tens, faces and
      aces -1. */
  lemma HiLoBands(rank: string)
    requires rank in HiLoValues
    ensures HiLoValue(rank) == 1 <==> rank in Ranks[..5]
    ensures HiLoValue(rank) == 0 <==> rank in Ranks[5..8]
    ensures HiLoValue(rank) == -1 <==> rank in Ranks[8..]
  {
    assert Ranks[..5] == ["2", "3", "4", "5", "6"];
    assert Ranks[5..8] == ["7", "8", "9"];
    assert Ranks[8..] == ["10", "J", "Q", "K", "A"];
  }

  /** The table has an entry for exactly the ranks of the deck. */
  lemma HiLoKeys()
    ensures forall r :: r in HiLoValues <==> r in Ranks
  {
  }

  /** The value of the k-th rank depends only on which of the three bands k
      falls into. */
  lemma HiLoTable()
    ensures forall k :: 0 <= k < |Ranks| ==>
              HiLoValues[Ranks[k]] == (if k < 5 then 1 else if k < 8 then 0 else -1)
  {
    assert Ranks[..5] == ["2", "3", "4", "5", "6"];
    assert Ranks[5..8] == ["7", "8", "9"];
    assert Ranks[8..] == ["10", "J", "Q", "K", "A"];
  }

  /** A card name with its last character (the suit) dropped, as `card[:-1]`
      does; an empty name stays empty. */
  function RankOf(card: string): (rank: string)
    ensures |card| >= 1 ==> card == rank + [card[|card| - 1]]
    ensures |card| == 0 ==> rank == ""
  {
    if |card| == 0 then "" else card[..|card| - 1]
  }

  /** The rank part of the card name is a key of the Hi-Lo table (and so, by
      HiLoKeys, one of the ranks). */
  predicate HasRank(card: string)
  {
    RankOf(card) in HiLoValues
  }

  /** What one card adds to the running count. */
  function CardValue(card: string): (v: int)
    requires HasRank(card)
    ensures -1 <= v <= 1
  {
    HiLoValue(RankOf(card))
  }

  /** The deck as the comprehension builds it: every rank in turn, each
      followed by every suit in turn. */
  function FullDeck(): (deck: seq<string>)
    ensures |deck| == |Ranks| * |Suits| == 52
  {
    seq(|Ranks| * |Suits|, i requires 0 <= i < |Ranks| * |Suits| => Ranks[i / |Suits|] + Suits[i % |Suits|])
  }

  /** The card for rank a and suit b sits at position a * 4 + b: the ranks are
      the outer loop of the comprehension and the suits the inner one. */
  lemma FullDeckLayout()
    ensures forall a, b :: 0 <= a < |Ranks| && 0 <= b < |Suits| ==>
              FullDeck()[a * |Suits| + b] == Ranks[a] + Suits[b]
  {
    forall a, b | 0 <= a < |Ranks| && 0 <= b < |Suits|
      ensures FullDeck()[a * |Suits| + b] == Ranks[a] + Suits[b]
    {
      var k := a * 4 + b;
      BlockPosition(a, b);
      assert FullDeck()[k] == Ranks[k / 4] + Suits[k % 4];
    }
  }

  /** Position a * 4 + b is place b of block a. */
  lemma BlockPosition(a: nat, b: nat)
    requires b < 4
    ensures (a * 4 + b) / 4 == a && (a * 4 + b) % 4 == b
  {
  }

  /** Dropping the last character of a rank followed by a suit gives the rank
      back, including the two-character rank "10". */
  lemma RankOfCard(a: nat, b: nat)
    requires a < |Ranks| && b < |Suits|
    ensures RankOf(Ranks[a] + Suits[b]) == Ranks[a]
    ensures HasRank(Ranks[a] + Suits[b])
  {
    assert |Suits[b]| == 1 by {
      assert b == 0 || b == 1 || b == 2 || b == 3;
    }
    assert (Ranks[a] + Suits[b])[..|Ranks[a]|] == Ranks[a];
  }

  /** A card name determines the (rank, suit) pair it was built from. */
  lemma CardNameInjective(a: nat, b: nat, c: nat, d: nat)
    requires a < |Ranks| && b < |Suits| && c < |Ranks| && d < |Suits|
    requires Ranks[a] + Suits[b] == Ranks[c] + Suits[d]
    ensures a == c && b == d
  {
    RankOfCard(a, b);
    RankOfCard(c, d);
    var x := Ranks[a] + Suits[b];
    assert Ranks[a] == RankOf(x) == Ranks[c];
    assert Suits[b] == [x[|x| - 1]] == Suits[d];
  }

  /** Every name in the deck yields the rank of its block of four when the
      last character is dropped. */
  lemma FullDeckRanks()
    ensures forall i :: 0 <= i < |FullDeck()| ==>
              RankOf(FullDeck()[i]) == Ranks[i / |Suits|] && HasRank(FullDeck()[i])
  {
    var deck := FullDeck();
    FullDeckLayout();
    forall i | 0 <= i < |deck|
      ensures RankOf(deck[i]) == Ranks[i / |Suits|] && HasRank(deck[i])
    {
      assert deck[i] == Ranks[i / 4] + Suits[i % 4];
      RankOfCard(i / 4, i % 4);
    }
  }

  /** No card name occurs twice in the deck. */
  lemma FullDeckDistinct()
    ensures forall i, j :: 0 <= i < j < |FullDeck()| ==> FullDeck()[i] != FullDeck()[j]
  {
    forall i, j | 0 <= i < j < |FullDeck()|
      ensures FullDeck()[i] != FullDeck()[j]
    {
      DistinctPositions(i, j);
    }
  }

  /** Two different positions of the deck hold different names. */
  lemma DistinctPositions(i: nat, j: nat)
    requires i < j < |FullDeck()|
    ensures FullDeck()[i] != FullDeck()[j]
  {
    var deck := FullDeck();
    var a, b, c, d := i / 4, i % 4, j / 4, j % 4;
    PositionsDiffer(i, j);
    assert deck[i] == Ranks[a] + Suits[b];
    assert deck[j] == Ranks[c] + Suits[d];
    if deck[i] == deck[j] {
      CardNameInjective(a, b, c, d);
      assert false;
    }
  }

  /** Two positions in blocks of four differ in their block or their place
      within it. */
  lemma PositionsDiffer(i: nat, j: nat)
    requires i < j
    ensures i / 4 != j / 4 || i % 4 != j % 4
  {
    assert i == 4 * (i / 4) + i % 4 && j == 4 * (j / 4) + j % 4;
  }

  /** Every combination of a rank and a suit is in the deck. */
  lemma FullDeckComplete()
    ensures forall a, b :: 0 <= a < |Ranks| && 0 <= b < |Suits| ==> Ranks[a] + Suits[b] in FullDeck()
  {
    var deck := FullDeck();
    FullDeckLayout();
    forall a, b | 0 <= a < |Ranks| && 0 <= b < |Suits|
      ensures Ranks[a] + Suits[b] in deck
    {
      var k := a * |Suits| + b;
      assert 0 <= k < |deck|;
      assert deck[k] == Ranks[a] + Suits[b];
    }
  }

  /** `a` holds the same cards as `b`, in some order. */
  predicate IsShuffleOf(a: seq<string>, b: seq<string>)
  {
    multiset(a) == multiset(b)
  }

  /** No element occurs twice. */
  predicate NoDuplicates<T(==)>(s: seq<T>)
  {
    forall i, j :: 0 <= i < j < |s| ==> s[i] != s[j]
  }

  /** A sequence without duplicates holds each element at most once. */
  lemma {:induction false} NoDuplicatesAtMostOnce<T>(s: seq<T>)
    requires NoDuplicates(s)
    ensures forall x :: multiset(s)[x] <= 1
  {
    if s != [] {
      var init, last := s[..|s| - 1], s[|s| - 1];
      assert s == init + [last];
      assert NoDuplicates(init);
      NoDuplicatesAtMostOnce(init);
      assert last !in init;
    }
  }

  /** An element that occurs at two positions occurs twice in the multiset. */
  lemma RepeatedName<T>(s: seq<T>, i: nat, j: nat)
    requires i < j < |s| && s[i] == s[j]
    ensures multiset(s)[s[i]] >= 2
  {
    assert s == s[..j] + [s[j]] + s[j + 1..];
    assert s[i] in s[..j];
  }

  /** Any shuffle of the deck still holds exactly the 52 rank-suit cards, each
      once, and every card in it has a Hi-Lo value. */
  lemma ShuffledDeckCards(d: seq<string>)
    requires IsShuffleOf(d, FullDeck())
    ensures |d| == 52
    ensures NoDuplicates(d)
    ensures forall a, b :: 0 <= a < |Ranks| && 0 <= b < |Suits| ==> Ranks[a] + Suits[b] in d
    ensures AllRanked(d)
  {
    FullDeckRanks();
    FullDeckDistinct();
    FullDeckComplete();
    ReshuffledDeck(FullDeck(), d);
    ShuffleKeepsDistinct(d, FullDeck());
    forall a, b | 0 <= a < |Ranks| && 0 <= b < |Suits|
      ensures Ranks[a] + Suits[b] in d
    {
      assert Ranks[a] + Suits[b] in multiset(FullDeck());
    }
  }

  /** A reordering of a sequence without duplicates has none either. */
  lemma ShuffleKeepsDistinct<T>(a: seq<T>, b: seq<T>)
    requires multiset(a) == multiset(b) && NoDuplicates(b)
    ensures NoDuplicates(a)
  {
    NoDuplicatesAtMostOnce(b);
    forall i, j | 0 <= i < j < |a|
      ensures a[i] != a[j]
    {
      if a[i] == a[j] {
        RepeatedName(a, i, j);
        assert false;
      }
    }
  }

  /** Reshuffling a deck keeps its size and a Hi-Lo value for every card. */
  lemma ReshuffledDeck(deck: seq<string>, shuffled: seq<string>)
    requires AllRanked(deck) && IsShuffleOf(shuffled, deck)
    ensures |shuffled| == |deck| && AllRanked(shuffled)
  {
    assert |shuffled| == |multiset(shuffled)| == |multiset(deck)| == |deck|;
    forall i | 0 <= i < |shuffled|
      ensures HasRank(shuffled[i])
    {
      var j := IndexOf(deck, shuffled[i]);
    }
  }

  /** Every card of `s` has a Hi-Lo value. */
  predicate AllRanked(s: seq<string>)
  {
    forall i {:trigger HasRank(s[i])} :: 0 <= i < |s| ==> HasRank(s[i])
  }

  /** The running count after seeing every card of `cards`, in order. */
  function CountOf(cards: seq<string>): (count: int)
    requires AllRanked(cards)
    ensures -|cards| <= count <= |cards|
  {
    if cards == [] then 0
    else
      CountOf(cards[..|cards| - 1]) + CardValue(cards[|cards| - 1])
  }

  /** Counting a prefix one card longer adds that card's value. */
  lemma CountOfStep(deck: seq<string>, n: nat)
    requires n < |deck| && AllRanked(deck[..n + 1])
    ensures AllRanked(deck[..n]) && HasRank(deck[n])
    ensures CountOf(deck[..n + 1]) == CountOf(deck[..n]) + CardValue(deck[n])
  {
    assert deck[..n + 1][..n] == deck[..n];
    assert deck[..n + 1][n] == deck[n];
  }

  /** Every prefix of a ranked run is ranked. */
  lemma AllRankedPrefix(s: seq<string>, n: nat)
    requires n <= |s| && AllRanked(s)
    ensures AllRanked(s[..n])
  {
    assert forall i :: 0 <= i < n ==> s[..n][i] == s[i];
  }

  /** A ranked prefix followed by a ranked card is a ranked prefix. */
  lemma AllRankedExtend(deck: seq<string>, n: nat)
    requires n < |deck| && AllRanked(deck[..n]) && HasRank(deck[n])
    ensures AllRanked(deck[..n + 1])
  {
    assert forall i :: 0 <= i < n ==> deck[..n + 1][i] == deck[..n][i];
  }

  /** The count of two runs of cards seen one after the other is the sum of
      their counts. */
  lemma {:induction false} CountOfConcat(a: seq<string>, b: seq<string>)
    requires AllRanked(a) && AllRanked(b)
    ensures AllRanked(a + b)
    ensures CountOf(a + b) == CountOf(a) + CountOf(b)
  {
    if b != [] {
      var init := b[..|b| - 1];
      assert (a + b)[..|a + b| - 1] == a + init;
      CountOfConcat(a, init);
    } else {
      assert a + b == a;
    }
  }

  /** Taking one card out of a run lowers the count by that card's value. */
  lemma CountOfRemove(b: seq<string>, k: nat)
    requires k < |b| && AllRanked(b)
    ensures AllRanked(b[..k] + b[k + 1..])
    ensures CountOf(b) == CountOf(b[..k] + b[k + 1..]) + CardValue(b[k])
  {
    SplitAt(b, k);
    CountOfMiddle(b[..k], b[k], b[k + 1..]);
  }

  /** A card between two runs adds its value to the count of the two runs. */
  lemma CountOfMiddle(pre: seq<string>, x: string, post: seq<string>)
    requires AllRanked(pre + [x] + post)
    ensures AllRanked(pre) && HasRank(x) && AllRanked(post)
    ensures AllRanked(pre + post)
    ensures CountOf(pre + [x] + post) == CountOf(pre + post) + CardValue(x)
  {
    var whole := pre + [x] + post;
    AllRankedSlice(whole, 0, |pre|);
    AllRankedSlice(whole, |pre| + 1, |whole|);
    assert whole[0..|pre|] == pre && whole[|pre| + 1..|whole|] == post;
    assert whole[|pre|] == x;
    SingleCount(x);
    CountOfConcat(pre, [x]);
    CountOfConcat(pre + [x], post);
    CountOfConcat(pre, post);
  }

  /** Every slice of a ranked run is ranked. */
  lemma AllRankedSlice(s: seq<string>, lo: nat, hi: nat)
    requires lo <= hi <= |s| && AllRanked(s)
    ensures AllRanked(s[lo..hi])
  {
    assert forall i :: 0 <= i < hi - lo ==> s[lo..hi][i] == s[lo + i];
  }

  /** The order in which cards are seen does not change the count. */
  lemma {:induction false} CountOfShuffle(a: seq<string>, b: seq<string>)
    requires AllRanked(a) && AllRanked(b) && IsShuffleOf(a, b)
    ensures CountOf(a) == CountOf(b)
    decreases |a|
  {
    if a != [] {
      var k := MatchLast(a, b);
      AllRankedPrefix(a, |a| - 1);
      CountOfRemove(b, k);
      CountOfShuffle(a[..|a| - 1], b[..k] + b[k + 1..]);
    } else {
      assert |b| == |multiset(b)| == 0;
    }
  }

  /** The last element of `a` sits at some index k of a reordering `b`, and the
      rest of `a` is a reordering of `b` without index k. */
  lemma MatchLast<T>(a: seq<T>, b: seq<T>) returns (k: nat)
    requires a != [] && multiset(a) == multiset(b)
    ensures k < |b| && b[k] == a[|a| - 1]
    ensures multiset(a[..|a| - 1]) == multiset(b[..k] + b[k + 1..])
  {
    k := IndexOf(b, a[|a| - 1]);
    DropLast(a);
    RemoveAt(b, k);
  }

  /** An element of a sequence's multiset sits at some index of it. */
  lemma IndexOf<T>(b: seq<T>, x: T) returns (k: nat)
    requires x in multiset(b)
    ensures k < |b| && b[k] == x
  {
    assert x in b;
    k :| 0 <= k < |b| && b[k] == x;
  }

  /** Dropping the last element takes one copy of it out of the multiset. */
  lemma DropLast<T>(a: seq<T>)
    requires a != []
    ensures multiset(a[..|a| - 1]) == multiset(a) - multiset{a[|a| - 1]}
  {
    assert a == a[..|a| - 1] + [a[|a| - 1]];
  }

  /** Removing the element at k takes one copy of it out of the multiset. */
  lemma RemoveAt<T>(b: seq<T>, k: nat)
    requires k < |b|
    ensures multiset(b[..k] + b[k + 1..]) == multiset(b) - multiset{b[k]}
  {
    SplitAt(b, k);
  }

  /** A sequence is its part before k, its k-th element and its part after k. */
  lemma SplitAt<T>(b: seq<T>, k: nat)
    requires k < |b|
    ensures b == b[..k] + [b[k]] + b[k + 1..]
  {
  }

  /** A single card counts its own value. */
  lemma SingleCount(c: string)
    requires HasRank(c)
    ensures AllRanked([c]) && CountOf([c]) == CardValue(c)
  {
    assert [c][..0] == [];
  }

  /** The count after the first n cards of the unshuffled deck: the first 20
      cards (ranks 2 to 6) count +1 each, the next 12 (ranks 7 to 9) nothing, and
      the last 20 (tens to aces) -1 each. */
  function DeckPrefixTotal(n: nat): (total: int)
  {
    if n <= 20 then n else if n <= 32 then 20 else 20 - (n - 32)
  }

  /** The n-th card of the unshuffled deck counts +1 for the first five ranks,
      0 for the next three and -1 for the last five. */
  lemma FullDeckValue(n: nat)
    requires n < |FullDeck()|
    ensures HasRank(FullDeck()[n])
    ensures CardValue(FullDeck()[n]) == if n < 20 then 1 else if n < 32 then 0 else -1
  {
    var deck := FullDeck();
    assert deck[n] == Ranks[n / 4] + Suits[n % 4];
    RankOfCard(n / 4, n % 4);
    HiLoTable();
  }

  /** DeckPrefixTotal is the count of the first n cards of the unshuffled deck. */
  lemma {:induction false} DeckPrefixCount(n: nat)
    requires n <= |FullDeck()|
    ensures AllRanked(FullDeck()[..n])
    ensures CountOf(FullDeck()[..n]) == DeckPrefixTotal(n)
  {
    var deck := FullDeck();
    if n > 0 {
      DeckPrefixCount(n - 1);
      FullDeckValue(n - 1);
      AllRankedExtend(deck, n - 1);
      CountOfStep(deck, n - 1);
    }
  }

  /** The Hi-Lo count is balanced: the whole shoe, in any order, counts to 0. */
  lemma ShoeIsBalanced(d: seq<string>)
    requires IsShuffleOf(d, FullDeck())
    ensures AllRanked(d) && CountOf(d) == 0
  {
    var full := FullDeck();
    DeckPrefixCount(|full|);
    assert full[..|full|] == full;
    ReshuffledDeck(full, d);
    CountOfShuffle(d, full);
  }

  /** The running count after the first n cards of `deck`, dealt in order and
      every one counted. */
  function CountPrefix(deck: seq<string>, n: nat): (count: int)
    requires n <= |deck| && AllRanked(deck)
    ensures -(n as int) <= count <= n
  {
    if n == 0 then 0 else CountPrefix(deck, n - 1) + CardValue(deck[n - 1])
  }

  /** Counting the first n cards as they are dealt is counting the run
      `deck[..n]`. */
  lemma {:induction false} CountPrefixIsCountOf(deck: seq<string>, n: nat)
    requires n <= |deck| && AllRanked(deck)
    ensures AllRanked(deck[..n])
    ensures CountPrefix(deck, n) == CountOf(deck[..n])
  {
    AllRankedPrefix(deck, n);
    if n > 0 {
      CountPrefixIsCountOf(deck, n - 1);
      CountOfStep(deck, n - 1);
    }
  }

  /** In Timed Mode, where every card is counted, a whole pass through a
      shuffled deck ends at 0: the count thrown away at the reshuffle is 0. */
  lemma TimedPassBalanced(d: seq<string>)
    requires IsShuffleOf(d, FullDeck())
    ensures AllRanked(d) && CountPrefix(d, |d|) == 0
  {
    ShoeIsBalanced(d);
    CountPrefixWhole(d);
  }

  /** Counting every card of `deck` as it is dealt is counting the whole run. */
  lemma CountPrefixWhole(deck: seq<string>)
    requires AllRanked(deck)
    ensures CountPrefix(deck, |deck|) == CountOf(deck)
  {
    CountPrefixIsCountOf(deck, |deck|);
    assert deck[..|deck|] == deck;
  }

  /** The count of the first n cards of `deck` when the cards at the positions in
      `skipped` are passed over without being counted. */
  function CountSkipping(deck: seq<string>, n: nat, skipped: seq<int>): (count: int)
    requires n <= |deck| && AllRanked(deck)
    ensures -(n as int) <= count <= n
  {
    if n == 0 then 0
    else CountSkipping(deck, n - 1, skipped) + (if n - 1 in skipped then 0 else CardValue(deck[n - 1]))
  }

  /** Before the first skipped position, counting with skips and counting every
      card agree. */
  lemma {:induction false} CountSkippingBeforeSkips(deck: seq<string>, n: nat, skipped: seq<int>)
    requires n <= |deck| && AllRanked(deck)
    requires forall p :: p in skipped ==> p >= n
    ensures CountSkipping(deck, n, skipped) == CountPrefix(deck, n)
  {
    if n > 0 {
      CountSkippingBeforeSkips(deck, n - 1, skipped);
    }
  }

  /** Past exactly one skipped position p, counting with skips falls short of
      counting every card by the value of the card at p. */
  lemma {:induction false} CountSkippingOneSkip(deck: seq<string>, n: nat, skipped: seq<int>, p: nat)
    requires n <= |deck| && AllRanked(deck)
    requires p < n && p in skipped
    requires forall q :: q in skipped ==> q == p || q >= n
    ensures CountSkipping(deck, n, skipped) == CountPrefix(deck, n) - CardValue(deck[p])
  {
    if n == p + 1 {
      CountSkippingBeforeSkips(deck, p, skipped);
    } else {
      CountSkippingOneSkip(deck, n - 1, skipped, p);
    }
  }
}
