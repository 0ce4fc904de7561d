/** The prayer list page: the stored `prayerItems`, its like and comment
    handlers, the filtered view and the one-off migration of old records.
    Saving goes through `Keyed.SaveAppending` and deleting through
    `Selection.ConfirmDelete`. */
module Prayers {
  import opened Wrappers
  import opened Text
  import opened Lists
  import opened Keyed
  import opened Entities
  import opened Social

  /** How the like and comment handlers reach a prayer's fields. */
  const PrayerAccess: Access<PrayerItem> := Access(
    PrayerId,
    (p: PrayerItem) => p.liked,
    (p: PrayerItem) => p.likes,
    (p: PrayerItem, l: bool, n: int) => p.(liked := l, likes := n),
    (p: PrayerItem) => p.comments,
    (p: PrayerItem, cs: seq<Comment>) => p.(comments := cs))

  lemma PrayerAccessLawful()
    ensures Lawful(PrayerAccess)
  {
  }

  /** Liking a prayer twice restores the list. */
  lemma PrayerLikeTwice(items: seq<PrayerItem>, id: string)
    ensures ToggleLike(ToggleLike(items, id, PrayerAccess), id, PrayerAccess) == items
  {
    PrayerAccessLawful();
    ToggleLikeTwice(items, id, PrayerAccess);
  }

  /** A like changes only `liked` and `likes` of the prayer carrying `id`. */
  lemma PrayerLikeFields(items: seq<PrayerItem>, id: string)
    ensures var r := ToggleLike(items, id, PrayerAccess);
      forall i :: 0 <= i < |items| ==>
        r[i] == items[i].(liked := r[i].liked, likes := r[i].likes)
        && (items[i].id == id ==> r[i].liked == !items[i].liked && r[i].likes == items[i].likes + (if r[i].liked then 1 else -1))
        && (items[i].id != id ==> r[i] == items[i])
  {
    PrayerAccessLawful();
  }

  /** A comment added under a fresh id and then deleted leaves no trace. */
  lemma PrayerCommentAddThenDelete(items: seq<PrayerItem>, id: string, draft: Option<string>, cid: string, now: string)
    requires forall i, c :: 0 <= i < |items| && items[i].id == id && c in items[i].comments ==> c.id != cid
    ensures DeleteComment(AddComment(items, id, draft, cid, now, PrayerAccess), id, cid, PrayerAccess) == items
  {
    PrayerAccessLawful();
    AddThenDelete(items, id, draft, cid, now, PrayerAccess);
  }

  /** The status tabs above the list. */
  datatype PrayerFilter = AllPrayers | Unanswered | Answered | Commented | LikedPrayers

  predicate StatusKeeps(status: PrayerFilter, p: PrayerItem) {
    match status
    case AllPrayers => true
    case Unanswered => !p.answered
    case Answered => p.answered
    case Commented => |p.comments| > 0
    case LikedPrayers => p.liked
  }

  /** The search box: person, title, content, and a non-empty `godsResponse`. */
  predicate SearchKeeps(p: PrayerItem, term: string) {
    || MatchesSearch(p.person, term)
    || MatchesSearch(p.title, term)
    || MatchesSearch(p.content, term)
    || (p.godsResponse.Some? && p.godsResponse.value != "" && MatchesSearch(p.godsResponse.value, term))
  }

  /** `filteredItems`: the prayers passing the status tab and the search,
      sorted by `prayerDate`. */
  function FilteredItems(items: seq<PrayerItem>, status: PrayerFilter, term: string, order: SortOrder): (r: seq<PrayerItem>)
    ensures forall p :: p in r <==> p in items && StatusKeeps(status, p) && SearchKeeps(p, term)
    ensures Sorted(r, PrayerDate, order)
    ensures |r| <= |items|
  {
    View(items, p => StatusKeeps(status, p) && SearchKeeps(p, term), PrayerDate, order)
  }

  /** The empty search matches every prayer, so with the "all" tab the view
      is a reordering of the whole list. */
  lemma UnfilteredViewIsPermutation(items: seq<PrayerItem>, order: SortOrder)
    ensures multiset(FilteredItems(items, AllPrayers, "", order)) == multiset(items)
  {
    var keep := (p: PrayerItem) => StatusKeeps(AllPrayers, p) && SearchKeeps(p, "");
    forall p | p in items ensures keep(p) {
      assert ToLower("") == "";
      assert MatchesSearch(p.person, "");
    }
    FilterKeepsAll(items, keep);
  }

  /** A prayer as it may sit in storage from before likes and comments
      existed: those three fields can be missing. */
  datatype StoredPrayer = StoredPrayer(
    id: string,
    title: string,
    person: string,
    content: string,
    prayerDate: string,
    answered: bool,
    answeredDate: Option<string>,
    godsResponse: Option<string>,
    likes: Option<int>,
    liked: Option<bool>,
    comments: Option<seq<Comment>>)

  /** The migration runs only if some record lacks `likes` or `comments`. */
  predicate NeedsMigration(xs: seq<StoredPrayer>) {
    exists i :: 0 <= i < |xs| && (xs[i].likes.None? || xs[i].comments.None?)
  }

  /** `{ ...item, likes: item.likes ?? 0, liked: item.liked ?? false, comments: item.comments ?? [] }`. */
  function Filled(x: StoredPrayer): StoredPrayer {
    x.(likes := Some(x.likes.GetOr(0)), liked := Some(x.liked.GetOr(false)), comments := Some(x.comments.GetOr([])))
  }

  /** The mount-time migration: when needed, every record gets the missing
      social fields filled with 0, false and [], keeping every value that is
      present; otherwise the list is left as it is. */
  function Migrate(xs: seq<StoredPrayer>): (r: seq<StoredPrayer>)
    ensures !NeedsMigration(xs) ==> r == xs
    ensures !NeedsMigration(r)
    ensures |r| == |xs|
    ensures forall i :: 0 <= i < |xs| ==>
      r[i] == xs[i].(likes := r[i].likes, liked := r[i].liked, comments := r[i].comments)
    ensures forall i :: 0 <= i < |xs| ==>
      && (xs[i].likes.Some? ==> r[i].likes == xs[i].likes)
      && (xs[i].liked.Some? ==> r[i].liked == xs[i].liked)
      && (xs[i].comments.Some? ==> r[i].comments == xs[i].comments)
    ensures NeedsMigration(xs) ==> forall i :: 0 <= i < |xs| ==>
      r[i].likes.Some? && r[i].liked.Some? && r[i].comments.Some?
  {
    if NeedsMigration(xs) then seq(|xs|, i requires 0 <= i < |xs| => Filled(xs[i])) else xs
  }

  /** Running the migration again changes nothing. */
  lemma MigrateIdempotent(xs: seq<StoredPrayer>)
    ensures Migrate(Migrate(xs)) == Migrate(xs)
  {
  }

  /** A record missing only `liked` does not trigger the migration, so its
      `liked` stays missing. */
  lemma MissingLikedAloneIsKept()
    ensures var x := StoredPrayer("id", "", "", "", "", false, None, None, Some(0), None, Some([]));
      Migrate([x]) == [x] && x.liked.None?
  {
    var x := StoredPrayer("id", "", "", "", "", false, None, None, Some(0), None, Some([]));
    assert !NeedsMigration([x]);
  }
}
