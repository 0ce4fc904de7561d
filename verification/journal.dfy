/** The journal page: saving an entry (grace points, title, upsert and the
    tracker write), deleting entries (with the tracker retraction), the
    sorted view and the entry form. Likes and comments go through the
    handlers of `Social`. */
module Journal {
  import opened Wrappers
  import opened Text
  import opened Lists
  import opened Keyed
  import opened Entities
  import opened Progress
  import opened Tracker
  import opened Social
  import opened Selection
  import ShareForm

  /** What the page holds: the stored entries, the stored tracker and grace
      points it writes into, and its selection state. */
  datatype Journal = Journal(entries: seq<JournalEntry>, tracker: ProgressMap, gracePoints: int, sel: Selection)

  /** `entries.find(e => e.id === id)?.completed ?? false`. */
  function WasCompleted(entries: seq<JournalEntry>, id: string): (r: bool)
    ensures r ==> HasId(entries, id, EntryId)
    ensures r <==> exists i :: 0 <= i < |entries| && entries[i].id == id && entries[i].completed
                               && forall k :: 0 <= k < i ==> entries[k].id != id
  {
    var k := FindIndex(entries, id, EntryId);
    k >= 0 && entries[k].completed
  }

  /** The title written on save: `book chapter`, with `:verse` only for a non-empty verse. */
  function EntryTitle(e: JournalEntry): string {
    ScriptureLabel(e.book, e.chapter, e.verse.GetOr(""))
  }

  /** The entry as stored by a save: the form data with its title. */
  function Titled(e: JournalEntry): (r: JournalEntry)
    ensures r.id == e.id && r.title == Some(EntryTitle(e))
    ensures r.(title := e.title) == e
  {
    e.(title := Some(EntryTitle(e)))
  }

  /** `handleSave`: one grace point when the entry becomes completed, the
      titled entry put in place of the first entry with its id (or appended),
      and the entry's own book and chapter set or cleared in the tracker. */
  function Save(j: Journal, e: JournalEntry): (r: Journal)
    ensures r.gracePoints == j.gracePoints + (if e.completed && !WasCompleted(j.entries, e.id) then 1 else 0)
    ensures Titled(e) in r.entries
    ensures |r.entries| == if HasId(j.entries, e.id, EntryId) then |j.entries| else |j.entries| + 1
    ensures forall i :: 0 <= i < |j.entries| && j.entries[i].id != e.id ==> r.entries[i] == j.entries[i]
    ensures UniqueIds(j.entries, EntryId) ==> UniqueIds(r.entries, EntryId)
    ensures Marked(r.tracker, e.book, e.chapter) <==> e.completed
    ensures SameOtherKeys(ChaptersOf(j.tracker, e.book), ChaptersOf(r.tracker, e.book), e.chapter)
    ensures SameOtherBooks(j.tracker, r.tracker, e.book)
    ensures AllTrue(j.tracker) ==> AllTrue(r.tracker)
    ensures NoEmptyBooks(j.tracker) ==> NoEmptyBooks(r.tracker)
    ensures r.sel == j.sel
  {
    var points := if e.completed && !WasCompleted(j.entries, e.id) then j.gracePoints + 1 else j.gracePoints;
    Journal(Put(j.entries, Titled(e), EntryId), RecordChapter(j.tracker, e.book, e.chapter, e.completed), points, j.sel)
  }

  /** Saving the same form twice is the same as saving it once: in
      particular the second save earns no further grace point. */
  lemma SaveTwice(j: Journal, e: JournalEntry)
    ensures Save(Save(j, e), e) == Save(j, e)
  {
    var once := Save(j, e);
    PutFindsSaved(j.entries, Titled(e), EntryId);
    assert WasCompleted(once.entries, e.id) == e.completed;
    PutTwice(j.entries, Titled(e), EntryId);
    RecordChapterIdempotent(j.tracker, e.book, e.chapter, e.completed);
  }

  /** Completing, un-completing and completing again earns two points: the
      rule only compares with the entry as currently stored. */
  lemma RecompletionEarnsAgain(j: Journal, e: JournalEntry)
    requires e.completed
    ensures Save(Save(Save(j, e), e.(completed := false)), e).gracePoints
         == Save(j, e).gracePoints + 1
  {
    var once := Save(j, e);
    var undone := e.(completed := false);
    var twice := Save(once, undone);
    PutFindsSaved(once.entries, Titled(undone), EntryId);
    assert !WasCompleted(twice.entries, e.id);
  }

  /** Un-completing one entry clears its chapter even when another stored
      entry still covers that chapter as completed, so "marked iff some
      completed entry covers it" is not kept by save. */
  lemma SaveUncoversSibling(j: Journal, e: JournalEntry, other: JournalEntry)
    requires other in j.entries && other.completed && other.id != e.id
    requires other.book == e.book && other.chapter == e.chapter && !e.completed
    ensures var r := Save(j, e);
      other in r.entries && !Marked(r.tracker, other.book, other.chapter)
  {
    var i :| 0 <= i < |j.entries| && j.entries[i] == other;
    assert Save(j, e).entries[i] == other;
  }

  /** Moving an entry to another chapter never clears the chapter it used to
      name: the tracker is written for the new book and chapter only. */
  lemma SaveKeepsOldChapter(j: Journal, e: JournalEntry, book: string, chapter: int)
    requires book != e.book || chapter != e.chapter
    ensures Marked(Save(j, e).tracker, book, chapter) <==> Marked(j.tracker, book, chapter)
  {
    var r := RecordChapter(j.tracker, e.book, e.chapter, e.completed);
    assert Save(j, e).tracker == r;
    if book != e.book {
      assert (book in r <==> book in j.tracker) && (book in r ==> r[book] == j.tracker[book]);
      assert ChaptersOf(r, book) == ChaptersOf(j.tracker, book);
    } else {
      var m, m' := ChaptersOf(j.tracker, book), ChaptersOf(r, book);
      assert SameOtherKeys(m, m', e.chapter);
      assert (chapter in m' <==> chapter in m) && (chapter in m' ==> m'[chapter] == m[chapter]);
    }
  }

  /** The completed entries among those staged for deletion, in list order. */
  function DeletedCompleted(entries: seq<JournalEntry>, staged: set<string>): (r: seq<JournalEntry>)
    ensures forall x :: x in r <==> x in entries && x.id in staged && x.completed
  {
    Filter(Filter(entries, (x: JournalEntry) => x.id in staged), (x: JournalEntry) => x.completed)
  }

  /** `handleConfirmDelete`: with nothing staged the page is left exactly as
      it was (not even select mode is left); otherwise the staged entries go,
      each deleted completed entry's chapter is removed from the tracker, and
      the selection resets. */
  function ConfirmDeleteEntries(j: Journal): (r: Journal)
    ensures j.sel.staged == {} ==> r == j
    ensures j.sel.staged != {} ==> r.sel == Idle
    ensures forall x :: x in r.entries <==> x in j.entries && (j.sel.staged == {} || x.id !in j.sel.staged)
    ensures SubsequenceOf(r.entries, j.entries)
    ensures r.gracePoints == j.gracePoints
    ensures forall x :: x in j.entries && x.id in j.sel.staged && x.completed ==> !Marked(r.tracker, x.book, x.chapter)
    ensures forall b, c :: (forall x :: x in j.entries && x.id in j.sel.staged && x.completed ==> x.book != b || x.chapter != c)
              ==> (Marked(r.tracker, b, c) <==> Marked(j.tracker, b, c))
    ensures r.tracker.Keys <= j.tracker.Keys
    ensures AllTrue(j.tracker) ==> AllTrue(r.tracker)
    ensures NoEmptyBooks(j.tracker) ==> NoEmptyBooks(r.tracker)
  {
    if j.sel.staged == {} then
      SubsequenceOfSelf(j.entries);
      j
    else
      var done := DeletedCompleted(j.entries, j.sel.staged);
      RetractAllClears(j.tracker, done);
      RetractAllKeeps(j.tracker, done);
      assert forall x :: x in j.entries && x.id in j.sel.staged && x.completed ==> x in done;
      assert forall b, c :: Covers(done, b, c) ==> exists x :: x in done && x.book == b && x.chapter == c;
      Journal(RemoveIds(j.entries, j.sel.staged, EntryId), RetractAll(j.tracker, done), j.gracePoints, Idle)
  }

  /** Deleting an incomplete entry never touches the tracker. */
  lemma DeleteIncompleteKeepsTracker(j: Journal)
    requires forall x :: x in j.entries && x.id in j.sel.staged ==> !x.completed
    ensures ConfirmDeleteEntries(j).tracker == j.tracker
  {
    if j.sel.staged != {} {
      var done := DeletedCompleted(j.entries, j.sel.staged);
      NoMembersEmpty(done);
    }
  }

  /** The status tabs of the journal. */
  datatype JournalFilter = AllEntries | CommentedEntries | LikedEntries | PendingMeditation

  predicate StatusKeeps(status: JournalFilter, e: JournalEntry) {
    match status
    case AllEntries => true
    case CommentedEntries => |e.comments| > 0
    case LikedEntries => e.liked
    case PendingMeditation => Trim(e.highlights) == ""
  }

  /** The search box: an empty term keeps everything; otherwise the book,
      the chapter number or the highlights must contain it. */
  predicate SearchKeeps(e: JournalEntry, term: string) {
    || ToLower(term) == ""
    || MatchesSearch(e.book, term)
    || Contains(IntToDecimal(e.chapter), ToLower(term))
    || MatchesSearch(e.highlights, term)
  }

  /** The book drop-down: "all" or one book name. */
  predicate BookKeeps(bookFilter: string, e: JournalEntry) {
    bookFilter == "all" || e.book == bookFilter
  }

  /** `sortedEntries`: the entries passing the book filter, the status tab
      and the search, sorted by date. */
  function SortedEntries(entries: seq<JournalEntry>, bookFilter: string, status: JournalFilter, term: string, order: SortOrder): (r: seq<JournalEntry>)
    ensures forall x :: x in r <==> x in entries && BookKeeps(bookFilter, x) && StatusKeeps(status, x) && SearchKeeps(x, term)
    ensures Sorted(r, EntryDate, order)
    ensures multiset(r) <= multiset(entries)
  {
    var keep := (x: JournalEntry) => BookKeeps(bookFilter, x) && StatusKeeps(status, x) && SearchKeeps(x, term);
    View(entries, keep, EntryDate, order)
  }

  /** With every filter open the view is a reordering of all entries. */
  lemma OpenFiltersShowAll(entries: seq<JournalEntry>, order: SortOrder)
    ensures multiset(SortedEntries(entries, "all", AllEntries, "", order)) == multiset(entries)
  {
    FilterKeepsAll(entries, (x: JournalEntry) => BookKeeps("all", x) && StatusKeeps(AllEntries, x) && SearchKeeps(x, ""));
  }

  /** How the like and comment handlers reach an entry's fields. */
  const EntryAccess: Access<JournalEntry> := Access(
    EntryId,
    (e: JournalEntry) => e.liked,
    (e: JournalEntry) => e.likes,
    (e: JournalEntry, l: bool, n: int) => e.(liked := l, likes := n),
    (e: JournalEntry) => e.comments,
    (e: JournalEntry, cs: seq<Comment>) => e.(comments := cs))

  lemma EntryAccessLawful()
    ensures Lawful(EntryAccess)
  {
  }

  /** Liking an entry twice restores the journal. */
  lemma EntryLikeTwice(entries: seq<JournalEntry>, id: string)
    ensures ToggleLike(ToggleLike(entries, id, EntryAccess), id, EntryAccess) == entries
  {
    EntryAccessLawful();
    ToggleLikeTwice(entries, id, EntryAccess);
  }

  /** A comment added under a fresh id and then deleted leaves no trace. */
  lemma EntryCommentAddThenDelete(entries: seq<JournalEntry>, id: string, draft: Option<string>, cid: string, now: string)
    requires forall i, c :: 0 <= i < |entries| && entries[i].id == id && c in entries[i].comments ==> c.id != cid
    ensures DeleteComment(AddComment(entries, id, draft, cid, now, EntryAccess), id, cid, EntryAccess) == entries
  {
    EntryAccessLawful();
    AddThenDelete(entries, id, draft, cid, now, EntryAccess);
  }

  /** A blank entry: a fresh id, today's date, the first book of the book
      table at chapter 1, not completed. */
  function NewEntry(id: string, today: string, firstBook: string): (r: JournalEntry)
    ensures r.id == id && r.date == today && r.book == firstBook && r.chapter == 1
    ensures r.verse == Some("") && r.title.None? && r.highlights == "" && r.godMessage == ""
    ensures !r.completed && r.likes == 0 && !r.liked && r.comments == []
  {
    JournalEntry(id, today, firstBook, 1, Some(""), None, "", "", false, 0, false, [])
  }

  /** One `onChange` event of the entry form. The chapter drop-down's value
      arrives as text; the model identifies it with the chapter number. */
  datatype EntryChange =
    | DateInput(date: string)
    | BookSelect(book: string)
    | ChapterSelect(chapter: int)
    | VerseInput(verse: string)
    | HighlightsInput(highlights: string)
    | MessageInput(message: string)
    | CompletedBox(checked: bool)

  /** `JournalForm.handleChange`: the named field takes the new value, and a
      book change also resets the chapter to 1. */
  function ChangeEntry(f: JournalEntry, c: EntryChange): (r: JournalEntry)
    ensures c.BookSelect? ==> r == f.(book := c.book, chapter := 1)
    ensures c.DateInput? ==> r == f.(date := c.date)
    ensures c.ChapterSelect? ==> r == f.(chapter := c.chapter)
    ensures c.VerseInput? ==> r == f.(verse := Some(c.verse))
    ensures c.HighlightsInput? ==> r == f.(highlights := c.highlights)
    ensures c.MessageInput? ==> r == f.(godMessage := c.message)
    ensures c.CompletedBox? ==> r == f.(completed := c.checked)
    ensures !c.BookSelect? && !c.ChapterSelect? ==> r.chapter == f.chapter && r.book == f.book
  {
    match c
    case DateInput(v) => f.(date := v)
    case BookSelect(v) => f.(book := v, chapter := 1)
    case ChapterSelect(v) => f.(chapter := v)
    case VerseInput(v) => f.(verse := Some(v))
    case HighlightsInput(v) => f.(highlights := v)
    case MessageInput(v) => f.(godMessage := v)
    case CompletedBox(b) => f.(completed := b)
  }

  /** The chapter drop-down of the entry form: `selectedBook && [1..chapters]`,
      so a book missing from the table offers no chapter at all. */
  function EntryChapterOptions(books: seq<BibleBook>, name: string): (r: seq<int>)
    ensures ShareForm.FindBook(books, name).None? ==> r == []
    ensures forall c :: c in r <==> exists b :: b in books && b.name == name && 1 <= c <= ShareForm.FindBook(books, name).value.chapters
  {
    match ShareForm.FindBook(books, name)
    case None => []
    case Some(b) =>
      forall c ensures c in ShareForm.ChapterOptions(b.chapters) <==> 1 <= c <= b.chapters {
        ShareForm.OfferedChapters(b.chapters, c);
      }
      ShareForm.ChapterOptions(b.chapters)
  }

  /** The form's chapter is one its drop-down offers. */
  predicate EntryChapterOffered(f: JournalEntry, books: seq<BibleBook>) {
    f.chapter in EntryChapterOptions(books, f.book)
  }

  /** A new entry on the table's first book starts on an offered chapter. */
  lemma NewEntryOffered(id: string, today: string, books: seq<BibleBook>)
    requires |books| > 0 && ShareForm.ChaptersPositive(books)
    ensures EntryChapterOffered(NewEntry(id, today, books[0].name), books)
  {
    assert books[0] in books;
  }

  /** Every change the form allows keeps the chapter on an offered one, so
      it stays at least 1: the book drop-down lists only table books and a
      book change resets the chapter to 1, and the chapter drop-down offers
      only listed chapters. */
  lemma ChangeEntryKeepsChapterOffered(f: JournalEntry, c: EntryChange, books: seq<BibleBook>)
    requires ShareForm.ChaptersPositive(books)
    requires EntryChapterOffered(f, books)
    requires c.BookSelect? ==> exists b :: b in books && b.name == c.book
    requires c.ChapterSelect? ==> c.chapter in EntryChapterOptions(books, f.book)
    ensures EntryChapterOffered(ChangeEntry(f, c), books)
    ensures ChangeEntry(f, c).chapter >= 1
    ensures c.BookSelect? ==> ChangeEntry(f, c).chapter == 1
  {
    var r := ChangeEntry(f, c);
    assert r.chapter in EntryChapterOptions(books, r.book) by {
      if c.BookSelect? {
        var found := ShareForm.FindBook(books, c.book);
        assert found.value in books;
      }
    }
  }
}
