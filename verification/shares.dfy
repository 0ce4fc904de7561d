/** The small-group sharing page: the searchable, dated view and the label
    shown on each share. Saving is `Keyed.SavePrepending`; deleting and
    selecting go through `Selection`. */
module Shares {
  import opened Text
  import opened Lists
  import opened Keyed
  import opened Entities

  /** The search box of `sortedShares`: skipped while empty, otherwise it
      looks in the group name, the book, the topic and the share itself. */
  predicate ShareKeeps(s: SmallGroupShare, term: string) {
    || ToLower(term) == ""
    || MatchesSearch(s.groupName, term)
    || MatchesSearch(s.book, term)
    || MatchesSearch(s.topic, term)
    || MatchesSearch(s.myShare, term)
  }

  /** `sortedShares`: the matching shares ordered by date in the chosen direction. */
  function SortedShares(shares: seq<SmallGroupShare>, term: string, order: SortOrder): (r: seq<SmallGroupShare>)
    ensures forall s :: s in r <==> s in shares && ShareKeeps(s, term)
    ensures Sorted(r, ShareDate, order)
    ensures multiset(r) <= multiset(shares)
  {
    View(shares, s => ShareKeeps(s, term), ShareDate, order)
  }

  /** With an empty search every share is shown, reordered by date. */
  lemma EmptySearchShowsAll(shares: seq<SmallGroupShare>, order: SortOrder)
    ensures multiset(SortedShares(shares, "", order)) == multiset(shares)
  {
    FilterKeepsAll(shares, s => ShareKeeps(s, ""));
  }

  /** Turning the sort toggle shows the same shares. */
  lemma OrderKeepsContents(shares: seq<SmallGroupShare>, term: string)
    ensures multiset(SortedShares(shares, term, Asc)) == multiset(SortedShares(shares, term, Desc))
  {
  }

  /** The heading of a share: `book chapter`, then `:verse` when a verse is given. */
  function ShareLabel(s: SmallGroupShare): (r: string)
    ensures |r| > |s.book| && r[..|s.book| + 1] == s.book + " "
    ensures s.verse == "" <==> |r| == |s.book| + 1 + |IntToDecimal(s.chapter)|
  {
    ScriptureLabel(s.book, s.chapter, s.verse)
  }

  /** Two shares on the same book carry the same heading exactly when they
      cite the same chapter and verse. */
  lemma SameLabelSameReference(a: SmallGroupShare, b: SmallGroupShare)
    requires a.book == b.book
    ensures ShareLabel(a) == ShareLabel(b) <==> a.chapter == b.chapter && a.verse == b.verse
  {
    if ShareLabel(a) == ShareLabel(b) {
      LabelDeterminesReference(a.book, a.chapter, a.verse, b.chapter, b.verse);
    }
  }
}
