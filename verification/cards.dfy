/** The card page: grace points buy a draw from the cards whose verse is not
    yet collected, a drawn card can be collected, and the collection can be
    searched. The draw's 500 ms delay is treated as one atomic step. */
module Cards {
  import opened Wrappers
  import opened Text
  import opened Lists
  import opened Entities

  /** The price of one draw. */
  const DrawCost := 3

  /** Why a draw was refused. */
  datatype DrawError = NotEnoughPoints | AllCollected

  /** `gracePoints`, `jesusSaidCards`, the card on display and the error line. */
  datatype CardPage = CardPage(points: int, collected: seq<JesusSaidCard>, current: Option<JesusSaidCard>, error: Option<DrawError>)

  /** The verses already in the collection. */
  function CollectedVerses(cards: seq<JesusSaidCard>): (r: set<string>)
    ensures forall v :: v in r <==> exists c :: c in cards && c.verse == v
  {
    set c | c in cards :: c.verse
  }

  /** The pool entries whose verse is not yet collected, in pool order. */
  function Uncollected(pool: seq<JesusSaidData>, cards: seq<JesusSaidCard>): (r: seq<JesusSaidData>)
    ensures forall d :: d in r <==> d in pool && d.verse !in CollectedVerses(cards)
  {
    var verses := CollectedVerses(cards);
    Filter(pool, (d: JesusSaidData) => d.verse !in verses)
  }

  /** `handleDrawCard`. Below three points, or with nothing left to collect,
      only the error is set. Otherwise the uncollected entry at `pick` (the
      random index, reduced into range) becomes the current card under a
      fresh id and today's date, the error clears and three points are spent. */
  function Draw(s: CardPage, pool: seq<JesusSaidData>, pick: nat, freshId: string, today: string): (r: CardPage)
    ensures s.points < DrawCost ==> r == s.(error := Some(NotEnoughPoints))
    ensures s.points >= DrawCost && |Uncollected(pool, s.collected)| == 0 ==> r == s.(error := Some(AllCollected))
    ensures r.error.None? ==>
      && r.points == s.points - DrawCost && r.points >= 0
      && r.collected == s.collected
      && r.current.Some?
      && r.current.value.id == freshId && r.current.value.date == today
      && r.current.value.verse !in CollectedVerses(s.collected)
      && JesusSaidData(r.current.value.verse, r.current.value.message, r.current.value.prayer) in pool
    ensures r.error.Some? ==> r.points == s.points && r.collected == s.collected
    ensures s.points >= DrawCost && |Uncollected(pool, s.collected)| > 0 ==> r.error.None?
  {
    if s.points < DrawCost then s.(error := Some(NotEnoughPoints))
    else
      var u := Uncollected(pool, s.collected);
      if |u| == 0 then s.(error := Some(AllCollected))
      else
        var d := u[pick % |u|];
        assert d in u;
        CardPage(s.points - DrawCost, s.collected, Some(JesusSaidCard(freshId, today, d.verse, d.message, d.prayer)), None)
  }

  /** `handleCollectCard`: without a current card nothing happens; otherwise
      the card joins the collection, which is re-sorted newest first, and the
      display clears. */
  function Collect(s: CardPage): (r: CardPage)
    ensures s.current.None? ==> r == s
    ensures s.current.Some? ==>
      && multiset(r.collected) == multiset(s.collected) + multiset{s.current.value}
      && Sorted(r.collected, CardDate, Desc)
      && r.current.None?
      && r.points == s.points && r.error == s.error
  {
    match s.current
    case None => s
    case Some(c) => s.(collected := SortBy(s.collected + [c], CardDate, Desc), current := None)
  }

  /** No two different collected cards share a verse. */
  ghost predicate DistinctVerses(cards: seq<JesusSaidCard>) {
    forall x, y :: x in cards && y in cards && x != y ==> x.verse != y.verse
  }

  /** The page invariant: collected verses are distinct and a card on
      display has a verse not yet collected. */
  ghost predicate CardsInv(s: CardPage) {
    && DistinctVerses(s.collected)
    && (s.current.Some? ==> s.current.value.verse !in CollectedVerses(s.collected))
  }

  /** A draw keeps the invariant, whether it succeeds or is refused. */
  lemma DrawKeepsInv(s: CardPage, pool: seq<JesusSaidData>, pick: nat, freshId: string, today: string)
    requires CardsInv(s)
    ensures CardsInv(Draw(s, pool, pick, freshId, today))
  {
  }

  /** Collecting keeps the invariant: the new card's verse was not yet in
      the collection, and sorting only reorders. */
  lemma CollectKeepsInv(s: CardPage)
    requires CardsInv(s)
    ensures CardsInv(Collect(s))
    ensures s.current.Some? ==> |Collect(s).collected| == |s.collected| + 1
  {
    if s.current.Some? {
      var c := s.current.value;
      var r := Collect(s).collected;
      forall x, y | x in r && y in r && x != y ensures x.verse != y.verse {
        assert x in multiset(r) && y in multiset(r);
        assert x in s.collected || x == c;
        assert y in s.collected || y == c;
      }
      assert |multiset(r)| == |multiset(s.collected)| + 1;
    }
  }

  /** Points never go negative through a draw. */
  lemma DrawKeepsPointsNonNegative(s: CardPage, pool: seq<JesusSaidData>, pick: nat, freshId: string, today: string)
    requires s.points >= 0
    ensures Draw(s, pool, pick, freshId, today).points >= 0
  {
  }

  /** The search box above the collection: field contains the term. */
  predicate CardMatches(c: JesusSaidCard, term: string) {
    MatchesSearch(c.verse, term) || MatchesSearch(c.message, term) || MatchesSearch(c.prayer, term)
  }

  /** `filteredCards`: an empty search shows the collection as stored;
      otherwise the matching cards, in stored order. */
  function FilteredCards(cards: seq<JesusSaidCard>, term: string): (r: seq<JesusSaidCard>)
    ensures ToLower(term) == "" ==> r == cards
    ensures ToLower(term) != "" ==> forall c :: c in r <==> c in cards && CardMatches(c, term)
    ensures SubsequenceOf(r, cards)
  {
    if ToLower(term) == "" then
      FilterKeepsAll(cards, _ => true);
      FilterSubsequence(cards, _ => true);
      cards
    else
      FilterSubsequence(cards, (c: JesusSaidCard) => CardMatches(c, term));
      Filter(cards, (c: JesusSaidCard) => CardMatches(c, term))
  }
}
