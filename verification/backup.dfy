/** The settings page: the backup document it exports and the rules by
    which it imports one. The store is the set of keys the page reads and
    writes; a key that is absent (or holds the empty string) is `None`. JSON
    parsing of the chosen file is a parameter: `None` when the text does not
    parse. */
module Backup {
  import opened Wrappers
  import opened Keyed
  import opened Merge
  import opened Entities
  import opened Progress

  /** The keys the settings page touches. */
  datatype Store = Store(
    journal: Option<seq<JournalEntry>>,
    prayers: Option<seq<PrayerItem>>,
    cards: Option<seq<JesusSaidCard>>,
    notes: Option<seq<MessageNote>>,
    shares: Option<seq<SmallGroupShare>>,
    plans: Option<ProgressMap>,
    gracePoints: Option<int>,
    tracker: Option<ProgressMap>)

  /** The exported document: seven keys. The reading tracker is not among
      them; an import rebuilds it from the journal instead. */
  datatype ExportDoc = ExportDoc(
    journalEntries: seq<JournalEntry>,
    prayerItems: seq<PrayerItem>,
    jesusSaidCards: seq<JesusSaidCard>,
    messageNotes: seq<MessageNote>,
    smallGroupShares: seq<SmallGroupShare>,
    biblePlansProgress: ProgressMap,
    gracePoints: int)

  /** `handleExport`: each key as stored, an absent collection as `[]`, absent
      plans as `{}` and absent points as `0`. */
  function Export(s: Store): (r: ExportDoc)
    ensures s.journal.Some? ==> r.journalEntries == s.journal.value
    ensures s.journal.None? ==> r.journalEntries == []
    ensures s.prayers.Some? ==> r.prayerItems == s.prayers.value
    ensures s.prayers.None? ==> r.prayerItems == []
    ensures s.cards.Some? ==> r.jesusSaidCards == s.cards.value
    ensures s.cards.None? ==> r.jesusSaidCards == []
    ensures s.notes.Some? ==> r.messageNotes == s.notes.value
    ensures s.notes.None? ==> r.messageNotes == []
    ensures s.shares.Some? ==> r.smallGroupShares == s.shares.value
    ensures s.shares.None? ==> r.smallGroupShares == []
    ensures s.plans.Some? ==> r.biblePlansProgress == s.plans.value
    ensures s.plans.None? ==> r.biblePlansProgress == map[]
    ensures s.gracePoints.Some? ==> r.gracePoints == s.gracePoints.value
    ensures s.gracePoints.None? ==> r.gracePoints == 0
  {
    ExportDoc(
      s.journal.GetOr([]), s.prayers.GetOr([]), s.cards.GetOr([]), s.notes.GetOr([]),
      s.shares.GetOr([]), s.plans.GetOr(map[]), s.gracePoints.GetOr(0))
  }

  /** A collection key of the imported document: falsy (absent, `null`, ...),
      some other non-array value, or an array of items. */
  datatype ArrayField<T> = Falsy | NotArray | Items(items: seq<T>)

  /** The parsed document, read through the types the import checks:
      `gracePoints` is `None` unless it is a number, `biblePlansProgress` is
      `None` when falsy. */
  datatype ImportDoc = ImportDoc(
    journalEntries: ArrayField<JournalEntry>,
    prayerItems: ArrayField<PrayerItem>,
    jesusSaidCards: ArrayField<JesusSaidCard>,
    messageNotes: ArrayField<MessageNote>,
    smallGroupShares: ArrayField<SmallGroupShare>,
    biblePlansProgress: Option<ProgressMap>,
    gracePoints: Option<int>)

  /** An exported document written out and parsed back. */
  function Reread(d: ExportDoc): ImportDoc {
    ImportDoc(
      Items(d.journalEntries), Items(d.prayerItems), Items(d.jesusSaidCards), Items(d.messageNotes),
      Items(d.smallGroupShares), Some(d.biblePlansProgress), Some(d.gracePoints))
  }

  /** The status line after an import attempt. */
  datatype Status = Imported | ImportFailed

  /** One collection key of the import: a non-array value leaves the key as
      it is; otherwise the stored items (`[]` when absent) are merged with the
      imported ones (`[]` when falsy) and written back. */
  function MergeKey<T(!new)>(stored: Option<seq<T>>, field: ArrayField<T>, idOf: T -> string): (r: Option<seq<T>>)
    ensures field.NotArray? ==> r == stored
    ensures !field.NotArray? ==> r.Some? && UniqueIds(r.value, idOf)
    ensures field.Items? ==> forall k :: HasId(r.value, k, idOf) <==>
      HasId(stored.GetOr([]), k, idOf) || (k != "" && HasId(field.items, k, idOf))
    ensures field.Falsy? ==> forall k :: HasId(r.value, k, idOf) <==> HasId(stored.GetOr([]), k, idOf)
  {
    match field
    case NotArray => stored
    case Falsy => Some(MergeById(stored.GetOr([]), [], idOf))
    case Items(xs) => Some(MergeById(stored.GetOr([]), xs, idOf))
  }

  /** A falsy collection merges exactly like an empty array. */
  lemma FalsyMergesAsEmpty<T(!new)>(stored: Option<seq<T>>, idOf: T -> string)
    ensures MergeKey(stored, Falsy, idOf) == MergeKey(stored, Items([]), idOf)
  {
  }

  /** Merging the same field twice is merging it once. */
  lemma MergeKeyIdempotent<T(!new)>(stored: Option<seq<T>>, field: ArrayField<T>, idOf: T -> string)
    ensures MergeKey(MergeKey(stored, field, idOf), field, idOf) == MergeKey(stored, field, idOf)
  {
    match field
    case NotArray =>
    case Falsy => MergeIdempotent(stored.GetOr([]), [], idOf);
    case Items(xs) => MergeIdempotent(stored.GetOr([]), xs, idOf);
  }

  /** A journal entry the tracker rebuild counts: completed, with a non-empty
      book and a non-zero chapter. */
  predicate Counts(e: JournalEntry) {
    e.completed && e.book != "" && e.chapter != 0
  }

  /** Some counted entry names this book and chapter. */
  predicate CountedCover(es: seq<JournalEntry>, book: string, chapter: int) {
    exists i :: 0 <= i < |es| && Counts(es[i]) && es[i].book == book && es[i].chapter == chapter
  }

  /** Some counted entry names this book. */
  predicate BookCounted(es: seq<JournalEntry>, book: string) {
    exists i :: 0 <= i < |es| && Counts(es[i]) && es[i].book == book
  }

  /** `progress[book][String(chapter)] = true`, creating the book's map when
      it is missing. */
  function AddMark(p: ProgressMap, book: string, chapter: int): (r: ProgressMap)
    ensures forall b, c :: Marked(r, b, c) <==> Marked(p, b, c) || (b == book && c == chapter)
    ensures forall b :: b in r <==> b in p || b == book
    ensures AllTrue(p) ==> AllTrue(r)
    ensures NoEmptyBooks(p) ==> NoEmptyBooks(r)
  {
    p[book := SetFlag(ChaptersOf(p, book), chapter)]
  }

  /** The tracker rebuilt from scratch out of the merged journal: a chapter
      is marked exactly when a counted entry names it, and only books with a
      counted entry appear. */
  function RebuildTracker(es: seq<JournalEntry>): (r: ProgressMap)
    ensures AllTrue(r) && NoEmptyBooks(r)
    ensures forall b, c :: Marked(r, b, c) <==> CountedCover(es, b, c)
    ensures forall b :: b in r <==> BookCounted(es, b)
    decreases |es|
  {
    if |es| == 0 then map[]
    else
      var init := es[..|es| - 1];
      var e := es[|es| - 1];
      var p := RebuildTracker(init);
      RebuildStep(es);
      if Counts(e) then AddMark(p, e.book, e.chapter) else p
  }

  /** How the cover relations of `es` split over its last entry. */
  lemma RebuildStep(es: seq<JournalEntry>)
    requires |es| > 0
    ensures var init, e := es[..|es| - 1], es[|es| - 1];
      && (forall b, c :: CountedCover(es, b, c) <==> CountedCover(init, b, c) || (Counts(e) && e.book == b && e.chapter == c))
      && (forall b :: BookCounted(es, b) <==> BookCounted(init, b) || (Counts(e) && e.book == b))
  {
    var init, e := es[..|es| - 1], es[|es| - 1];
    assert forall i :: 0 <= i < |init| ==> init[i] == es[i];
    assert es == init + [e];
  }

  /** `handleImport`. An unparseable file changes nothing and reports the
      failure. Otherwise: points are overwritten only by a number, plans only
      by a truthy value; every collection key is merged (see `MergeKey`);
      and unless the journal key held a non-array value, the tracker is
      rebuilt from the merged journal, discarding the stored one. */
  function Import(s: Store, doc: Option<ImportDoc>): (r: (Store, Status))
    ensures doc.None? ==> r == (s, ImportFailed)
    ensures doc.Some? ==> r.1 == Imported
    ensures doc.Some? ==>
      var d, t := doc.value, r.0;
      && t.gracePoints == (if d.gracePoints.Some? then d.gracePoints else s.gracePoints)
      && t.plans == (if d.biblePlansProgress.Some? then d.biblePlansProgress else s.plans)
      && t.journal == MergeKey(s.journal, d.journalEntries, EntryId)
      && t.prayers == MergeKey(s.prayers, d.prayerItems, PrayerId)
      && t.cards == MergeKey(s.cards, d.jesusSaidCards, CardId)
      && t.notes == MergeKey(s.notes, d.messageNotes, NoteId)
      && t.shares == MergeKey(s.shares, d.smallGroupShares, ShareId)
      && (d.journalEntries.NotArray? ==> t.tracker == s.tracker)
      && (!d.journalEntries.NotArray? ==>
           && t.tracker.Some? && t.journal.Some?
           && forall b, c :: Marked(t.tracker.value, b, c) <==> CountedCover(t.journal.value, b, c))
  {
    match doc
    case None => (s, ImportFailed)
    case Some(d) =>
      var journal := MergeKey(s.journal, d.journalEntries, EntryId);
      var tracker := if d.journalEntries.NotArray? then s.tracker else Some(RebuildTracker(journal.value));
      (Store(
        journal,
        MergeKey(s.prayers, d.prayerItems, PrayerId),
        MergeKey(s.cards, d.jesusSaidCards, CardId),
        MergeKey(s.notes, d.messageNotes, NoteId),
        MergeKey(s.shares, d.smallGroupShares, ShareId),
        if d.biblePlansProgress.Some? then d.biblePlansProgress else s.plans,
        if d.gracePoints.Some? then d.gracePoints else s.gracePoints,
        tracker),
       Imported)
  }

  /** Importing the same document twice gives what importing it once gives. */
  lemma ImportIdempotent(s: Store, d: ImportDoc)
    ensures Import(Import(s, Some(d)).0, Some(d)) == Import(s, Some(d))
  {
    MergeKeyIdempotent(s.journal, d.journalEntries, EntryId);
    MergeKeyIdempotent(s.prayers, d.prayerItems, PrayerId);
    MergeKeyIdempotent(s.cards, d.jesusSaidCards, CardId);
    MergeKeyIdempotent(s.notes, d.messageNotes, NoteId);
    MergeKeyIdempotent(s.shares, d.smallGroupShares, ShareId);
  }

  /** Stored items with distinct, non-empty ids. */
  predicate WellKeyed<T>(xs: Option<seq<T>>, idOf: T -> string) {
    xs.Some? ==> UniqueIds(xs.value, idOf) && forall i :: 0 <= i < |xs.value| ==> idOf(xs.value[i]) != ""
  }

  /** Importing a backup into the store it was exported from keeps every
      collection and the points and plans (absent ones take their export
      defaults), and replaces the tracker by the one rebuilt from the journal. */
  lemma ExportImportRoundTrip(s: Store)
    requires WellKeyed(s.journal, EntryId) && WellKeyed(s.prayers, PrayerId) && WellKeyed(s.cards, CardId)
    requires WellKeyed(s.notes, NoteId) && WellKeyed(s.shares, ShareId)
    ensures Import(s, Some(Reread(Export(s)))) == (Store(
      Some(s.journal.GetOr([])), Some(s.prayers.GetOr([])), Some(s.cards.GetOr([])),
      Some(s.notes.GetOr([])), Some(s.shares.GetOr([])),
      Some(s.plans.GetOr(map[])), Some(s.gracePoints.GetOr(0)),
      Some(RebuildTracker(s.journal.GetOr([])))), Imported)
  {
    MergeSelfKey(s.journal, EntryId);
    MergeSelfKey(s.prayers, PrayerId);
    MergeSelfKey(s.cards, CardId);
    MergeSelfKey(s.notes, NoteId);
    MergeSelfKey(s.shares, ShareId);
  }

  lemma MergeSelfKey<T(!new)>(xs: Option<seq<T>>, idOf: T -> string)
    requires WellKeyed(xs, idOf)
    ensures MergeKey(xs, Items(xs.GetOr([])), idOf) == Some(xs.GetOr([]))
  {
    var v := xs.GetOr([]);
    assert UniqueIds(v, idOf);
    forall x | x in v ensures idOf(x) != "" {
      var i :| 0 <= i < |v| && v[i] == x;
    }
    MergeSelf(v, idOf);
  }

  /** The rebuilt tracker forgets a stored mark that no counted entry
      supports, as for a chapter ticked by hand on the tracker page. */
  lemma RebuildDropsManualMarks()
    ensures var s := Store(Some([]), None, None, None, None, None, None, Some(map["Genesis" := map[1 := true]]));
      var t := Import(s, Some(ImportDoc(Falsy, Falsy, Falsy, Falsy, Falsy, None, None))).0;
      Marked(s.tracker.value, "Genesis", 1) && t.tracker.Some? && !Marked(t.tracker.value, "Genesis", 1)
  {
    var s := Store(Some([]), None, None, None, None, None, None, Some(map["Genesis" := map[1 := true]]));
    var t := Import(s, Some(ImportDoc(Falsy, Falsy, Falsy, Falsy, Falsy, None, None))).0;
    assert Marked(s.tracker.value, "Genesis", 1);
    assert !CountedCover(t.journal.value, "Genesis", 1);
  }
}
