# Abide: a verified model of the app's state logic

Abide is a devotional web app: a reading journal, a prayer list, a card
collection paid for with "grace points", sermon notes, small-group shares,
reading plans, a whole-Bible reading tracker, a chapter-by-chapter Bible
reader and a backup page. Every page keeps its data in the browser's
`localStorage` through one hook, `useLocalStorage`.

This project models the logic behind those pages in Dafny. Each React
handler becomes a pure function from the stored value to the next one, and
lemmas prove what the handlers promise. Things the handlers get from the
browser are parameters: the fresh id (`crypto.randomUUID`), today's date,
the random pool index of a draw, the parsed import file and whether a
`setItem` succeeded.

Modules follow the program:

- `Entities` holds the records of `types.ts`.
- `Keyed`, `Lists`, `Social` and `Selection` hold the controller logic that
  five pages repeat. That covers saving by id, filter-then-sort views,
  likes and comments, and select-then-confirm deletion.
- `Prayers`, `Journal`, `Cards`, `Notes`, `Shares`, `Plans` and `Tracker`
  model one page each. The form components are `PrayerForm`, `NoteForm`
  and `ShareForm`.
- `Progress` holds the nested `book -> chapter -> true` maps that the
  tracker and the plans page share.
- `Merge` and `Backup` model the settings page's export and import.
- `Navigation` models the Bible reader's chapter navigation over its
  66-book tables.
- `LocalStore` models the storage hook.
- `Text` and `Wrappers` are support modules.

Two properties a reader might expect do not hold in the code. The model
follows the code in both cases:

- A reading-tracker chapter is not kept "marked if and only if some
  completed journal entry covers it". Saving an entry as not completed
  clears its chapter even while another completed entry still covers it
  (`Journal.SaveUncoversSibling`). Saving also never clears the chapter an
  edited entry used to point at (`Journal.SaveKeepsOldChapter`). The
  relation holds only right after an import rebuilds the tracker
  (`Backup.Import`), and that rebuild discards marks made by hand on the
  tracker page (`Backup.RebuildDropsManualMarks`).
- The exported backup has seven keys, not eight. The reading tracker is
  not exported; an import rebuilds it from the journal instead
  (`Backup.Export`).

## Model

| member | source | states |
|---|---|---|
| Text.Trim | components/MessageNoteForm.tsx:31 | the result has no leading or trailing whitespace; it is empty exactly when the input is all whitespace; an already trimmed string is returned unchanged |
| Text.TrimIsStrip | components/MessageNoteForm.tsx:31 | `trim()` returns a slice of the input with only whitespace cut off on either side; with `Text.Trim`'s trimmed result this is exactly the input minus its leading and trailing whitespace |
| Text.TrimKeepsOut | components/MessageNoteForm.tsx:31 | trimming never introduces a character, so a comma-free piece stays comma-free |
| Text.Split | components/MessageNoteForm.tsx:31 | `split(',')` yields at least one piece and no piece contains the separator |
| Text.JoinSplit | components/MessageNoteForm.tsx:31 | joining the pieces of a split with the separator gives back the input |
| Text.SplitJoin | components/MessageNoteForm.tsx:19-31 | splitting a join of separator-free pieces gives back the pieces |
| Text.SignedRoundTrip | pages/JournalPage.tsx:186 | the decimal text of a chapter number (sign included) reads back as that number |
| Lists.Filter | pages/JesusSaidPage.tsx:162-166 | `filter` keeps exactly the items that pass the test and never adds copies (exact counts in `Lists.FilterCounts`) |
| Lists.FilterCounts | pages/JesusSaidPage.tsx:162-166 | every kept item survives exactly as many times as it is stored, and every other item not at all |
| Lists.FilterSubsequence | pages/JesusSaidPage.tsx:162-166 | `filter` keeps the stored order of what it keeps |
| Lists.SortBy | pages/MessageNotesPage.tsx:56 | sorting by a date key with `localeCompare` orders the list and is a permutation of it |
| Lists.SortByStable | pages/MessageNotesPage.tsx:56 | the sort is stable: items with equal keys keep their input order |
| Lists.View | pages/MessageNotesPage.tsx:33-46 | a filter-then-sort view is ordered and holds exactly the stored items passing the filter, each as often as stored |
| Keyed.FindIndex | pages/MessageNotesPage.tsx:50 | `findIndex` is -1 exactly when no item has the id; otherwise the item there has the id and no earlier one does |
| Keyed.UpdateWhere | pages/PrayerListPage.tsx:68-75 | mapping by id transforms exactly the items with that id and leaves the others and the length unchanged |
| Keyed.SaveAppending | pages/PrayerListPage.tsx:167-172 | a stored id is replaced in place with the length unchanged; a new item is appended last; distinct ids stay distinct |
| Keyed.SavePrepending | pages/SmallGroupSharePage.tsx:38-45 | a stored id is replaced in place; a new share is put in front without re-sorting; distinct ids stay distinct |
| Keyed.SavePrependingTwice | pages/SmallGroupSharePage.tsx:38-45 | saving the same share twice is the same as saving it once |
| Keyed.Put | pages/JournalPage.tsx:189-197 | the first item with the id is replaced and every other position is unchanged, or the item is appended; with distinct ids every item with that id is the saved one |
| Keyed.PutFindsSaved | pages/JournalPage.tsx:189-197 | after a save, `findIndex` of the saved id finds the saved entry |
| Keyed.PutTwice | pages/JournalPage.tsx:189-197 | saving the same entry twice is the same as saving it once |
| Keyed.SavePoliciesAgree | pages/PrayerListPage.tsx:167-172 | with distinct ids, replacing every match agrees with replacing the first match |
| Keyed.SaveThenEdit | pages/PrayerListPage.tsx:167-172 | saving an item and then an edit of it leaves exactly one item with that id, the edit |
| Keyed.RemoveIds | pages/PrayerListPage.tsx:185 | the filter keeps exactly the items whose id is not staged, in their stored order; an empty staged set keeps the list as it is |
| Social.ToggleLike | pages/PrayerListPage.tsx:67-76 | the matching item's `liked` flips and `likes` moves by +1 when it becomes liked and by -1 otherwise; every other item is unchanged |
| Social.ToggleLikeTwice | pages/PrayerListPage.tsx:67-76 | toggling the like twice restores the list |
| Social.ToggleLikeKeepsOthers | pages/PrayerListPage.tsx:67-76 | likes from other users (the count minus the user's own like) are unchanged by a toggle |
| Social.CommentText | pages/PrayerListPage.tsx:94-95 | the draft is used trimmed; a missing or whitespace-only draft yields nothing |
| Social.AddComment | pages/PrayerListPage.tsx:92-108 | an empty draft changes nothing; otherwise exactly one comment with the trimmed text is appended last to the matching item only |
| Social.RemoveComment | pages/PrayerListPage.tsx:115 | the comment with the id goes, every other comment stays in relative order |
| Social.DeleteComment | pages/PrayerListPage.tsx:112-119 | only the matching item's comments change, by removing the comment with the id |
| Social.EditText | pages/PrayerListPage.tsx:128 | only the `text` of the matching comment changes; its id, `createdAt` and position stay |
| Social.UpdateComment | pages/PrayerListPage.tsx:121-134 | no pending edit changes nothing; otherwise only the matching item's matching comment gets the new text |
| Social.AddThenDelete | pages/PrayerListPage.tsx:92-119 | deleting a comment just added under a fresh id restores the list |
| Social.EditThenDelete | pages/PrayerListPage.tsx:112-134 | deleting an edited comment gives what deleting the original gives |
| Social.EditTextThenRemove | pages/PrayerListPage.tsx:115-128 | removing an edited comment from a comment list gives what removing the original gives |
| Selection.EnterSelectMode | pages/PrayerListPage.tsx:227 | the select button turns select mode on and touches nothing else |
| Selection.ToggleSelected | pages/PrayerListPage.tsx:198-204 | the id becomes selected exactly when it was not; every other id keeps its state |
| Selection.ToggleSelectedTwice | pages/JesusSaidPage.tsx:147-157 | toggling an id twice restores the selection |
| Selection.ExitSelectMode | pages/PrayerListPage.tsx:232 | leaving select mode clears the selection and keeps the staged deletion |
| Selection.RequestDelete | pages/PrayerListPage.tsx:177-181 | an empty request changes nothing; otherwise the ids are staged and the confirmation opens |
| Selection.CancelDelete | pages/PrayerListPage.tsx:193-196 | on the journal and prayer pages, cancel clears the staged ids and closes the confirmation, keeping select mode and selection |
| Selection.CloseConfirmation | pages/MessageNotesPage.tsx:171 | the modal cancel of the note page (and likewise of the card and small-group pages) only closes the dialog, keeping the staged ids and select mode |
| Selection.CancelVariantsAgree | pages/PrayerListPage.tsx:177-196 | the two cancel variants cannot be told apart by the next delete request |
| Selection.ConfirmDelete | pages/PrayerListPage.tsx:183-191 | exactly the staged items go, the survivors keep their order, an empty staging removes nothing, distinct ids stay distinct, and the page returns to idle |
| Selection.DeleteOne | pages/MessageNotesPage.tsx:62-74 | deleting through one item's own button removes that id and keeps every other item |
| Prayers.PrayerAccessLawful | types.ts:25-37 | a prayer's like and comment fields read back what is written into them, keeping its id |
| Prayers.PrayerLikeTwice | pages/PrayerListPage.tsx:67-76 | toggling a prayer's like twice restores the list |
| Prayers.PrayerLikeFields | pages/PrayerListPage.tsx:70-72 | a toggled prayer's `liked` flips and `likes` moves by one in the matching direction |
| Prayers.PrayerCommentAddThenDelete | pages/PrayerListPage.tsx:92-119 | deleting a comment just added to a prayer restores the list |
| Prayers.FilteredItems | pages/PrayerListPage.tsx:144-165 | the view keeps a prayer exactly when it passes the status tab and the search over person, title, content and response, ordered by `prayerDate` |
| Prayers.UnfilteredViewIsPermutation | pages/PrayerListPage.tsx:144-165 | the "all" tab with an empty search shows every stored prayer, reordered |
| Prayers.Migrate | pages/PrayerListPage.tsx:30-42 | when some prayer lacks `likes` or `comments`, every missing social field is filled with 0, false or [] and present values are kept; otherwise nothing changes |
| Prayers.MigrateIdempotent | pages/PrayerListPage.tsx:30-42 | running the migration again changes nothing |
| Prayers.MissingLikedAloneIsKept | pages/PrayerListPage.tsx:31 | a record missing only `liked` does not trigger the migration and stays as it is |
| PrayerForm.NewPrayer | components/PrayerForm.tsx:10-23 | a new prayer is unanswered with no likes, no comments, empty texts and today's date |
| PrayerForm.InitialForm | components/PrayerForm.tsx:10-23 | editing starts from the stored prayer itself; otherwise from a new prayer |
| PrayerForm.Change | components/PrayerForm.tsx:25-45 | a text input sets only its own field; the checkbox sets `answered` and sets `answeredDate` to today when checked and clears it when unchecked |
| PrayerForm.ChangesKeepDateRule | components/PrayerForm.tsx:25-45 | "`answeredDate` is set exactly when answered" survives any sequence of changes |
| PrayerForm.CheckboxEstablishesDateRule | components/PrayerForm.tsx:29-37 | once the checkbox is touched the rule holds, whatever the stored prayer looked like |
| PrayerForm.NewPrayerKeepsDateRule | components/PrayerForm.tsx:10-45 | a new prayer keeps the rule through any edits |
| Journal.WasCompleted | pages/JournalPage.tsx:182-183 | true exactly when the first stored entry with the id is completed |
| Journal.Titled | pages/JournalPage.tsx:186-187 | the saved entry differs from the form data only in its generated title |
| Journal.Save | pages/JournalPage.tsx:181-213 | one grace point exactly when the entry becomes completed; upsert by id keeping ids distinct; the entry's chapter becomes marked exactly when it is completed, nothing else in the tracker changes, and no empty book map is stored |
| Journal.SaveTwice | pages/JournalPage.tsx:181-209 | saving the same entry twice is the same as saving it once |
| Journal.RecompletionEarnsAgain | pages/JournalPage.tsx:182-184 | completing, un-completing and completing again earns two points |
| Journal.SaveUncoversSibling | pages/JournalPage.tsx:199-209 | saving an entry as not completed unmarks a chapter that another stored completed entry still covers |
| Journal.SaveKeepsOldChapter | pages/JournalPage.tsx:199-209 | save leaves the mark of every other chapter alone, including the chapter an edited entry used to point at |
| Journal.DeletedCompleted | pages/JournalPage.tsx:229-230 | the staged entries that are completed |
| Journal.ConfirmDeleteEntries | pages/JournalPage.tsx:226-250 | an empty staging changes nothing; otherwise exactly the staged entries go and the rest keep their order, each deleted completed entry's chapter is unmarked, chapters no deleted completed entry covers keep their marks, and points are unchanged |
| Journal.DeleteIncompleteKeepsTracker | pages/JournalPage.tsx:229-243 | deleting only incomplete entries leaves the tracker untouched |
| Journal.SortedEntries | pages/JournalPage.tsx:165-179 | the view keeps exactly the entries passing the book, status and search filters, ordered by date |
| Journal.OpenFiltersShowAll | pages/JournalPage.tsx:165-179 | with every filter open the view shows every stored entry, reordered |
| Journal.EntryAccessLawful | types.ts:2-17 | an entry's like and comment fields read back what is written into them, keeping its id |
| Journal.EntryLikeTwice | pages/JournalPage.tsx:130-132 | toggling an entry's like twice restores the journal |
| Journal.EntryCommentAddThenDelete | pages/JournalPage.tsx:144-155 | deleting a comment just added to an entry restores the journal |
| Journal.NewEntry | pages/JournalPage.tsx:14-28 | a new entry starts at chapter 1 of the first book, not completed, with no likes or comments |
| Journal.ChangeEntry | pages/JournalPage.tsx:32-43 | choosing a book resets the chapter to 1; any other input changes only its own field |
| Journal.EntryChapterOptions | pages/JournalPage.tsx:56 | the chapter select offers exactly 1 to the chosen book's chapter count, and nothing when the book is not in the list |
| Journal.NewEntryOffered | pages/JournalPage.tsx:14-28 | a new entry opens on the first book at a chapter its select offers |
| Journal.ChangeEntryKeepsChapterOffered | pages/JournalPage.tsx:32-43 | a book or chapter picked from the selects keeps the entry's chapter among those offered and at least 1, and a book choice puts it at chapter 1 |
| Tracker.StoreBook | pages/TrackerPage.tsx:73-77 | a book whose chapter map is empty is deleted, otherwise stored; other books are unchanged |
| Tracker.ToggleChapter | pages/TrackerPage.tsx:62-81 | the chapter's mark flips, other chapters and books are unchanged, and no empty book map is stored |
| Tracker.ToggleTwice | pages/TrackerPage.tsx:62-81 | with only true flags and no empty book maps, toggling twice restores the map |
| Tracker.ToggleTwiceNeedsTrueFlags | pages/TrackerPage.tsx:67-71 | without those conditions it does not: a stored false flag becomes a missing key |
| Tracker.ToggleCount | pages/TrackerPage.tsx:62-101 | a toggle moves the completed-chapter total by -1, 0 or +1, as the chapter was marked, stored false or absent |
| Tracker.RecordChapter | pages/JournalPage.tsx:199-209 | the chapter becomes marked exactly when the entry is completed; nothing else changes and no empty book is stored |
| Tracker.RecordChapterIdempotent | pages/JournalPage.tsx:199-209 | recording the same status twice is the same as once |
| Tracker.Retract | pages/JournalPage.tsx:236-239 | the chapter is unmarked, every other mark is kept and a book left empty is deleted |
| Tracker.RetractIsUncomplete | pages/JournalPage.tsx:199-239 | retracting on delete is the same as saving the entry as not completed |
| Tracker.RetractAll | pages/JournalPage.tsx:233-242 | retracting many entries adds no books and keeps the map's invariants |
| Tracker.RetractAllClears | pages/JournalPage.tsx:233-242 | every retracted entry's chapter ends up unmarked |
| Tracker.RetractAllKeeps | pages/JournalPage.tsx:233-242 | every chapter no retracted entry covers keeps its mark |
| Tracker.CompletionStatus | pages/TrackerPage.tsx:83-95 | each stored book maps to exactly the set of its chapters marked true |
| Tracker.CountCompleted | pages/TrackerPage.tsx:13 | the count never exceeds the book's chapter count and reaches it exactly when every chapter is done |
| Tracker.CountIsCardinality | pages/TrackerPage.tsx:13 | the count is the number of done chapters within 1..chapters |
| Tracker.BookCompleted | pages/TrackerPage.tsx:13 | a book's completed count is the number of its chapters 1..n that are marked: at most n, equal to n exactly when every chapter is marked, and 0 for a book with no progress |
| Tracker.TotalCompleted | pages/TrackerPage.tsx:99-102 | the loop sums the key counts of every stored book |
| Tracker.TotalChapters | pages/TrackerPage.tsx:98 | the total is at least the number of books when each has a chapter, and at least any one book's count |
| Tracker.TotalChaptersAppend | pages/TrackerPage.tsx:98 | the chapter total of a book list is additive over concatenation |
| Plans.ToggleDay | pages/BiblePlansPage.tsx:53-67 | the day's mark flips, other days and plans are unchanged, and the plan key stays even when its map becomes empty |
| Plans.CompleteDay | pages/BiblePlansPage.tsx:69-80 | nothing happens without both a plan and a day; otherwise the day is marked and nothing else changes |
| Plans.CompletedDays | pages/BiblePlansPage.tsx:129 | the count is the number of stored day keys, 0 exactly when there are none; with only true flags it is the number of completed days |
| Plans.CompletedDaysAfterToggle | pages/BiblePlansPage.tsx:53-67 | a toggle lowers the count by one for a completed day, keeps it for a day stored as false, and raises it by one for an absent day; other plans' counts are unchanged |
| Plans.CompletedDaysAfterComplete | pages/BiblePlansPage.tsx:69-80 | completing a day raises the plan's count by at most one, by exactly one when the day was not stored |
| Plans.IsDayCompleted | pages/BiblePlansPage.tsx:88 | a day reads as completed exactly when its stored flag is true; an absent plan or day reads as not completed |
| Plans.CompleteDayIdempotent | pages/BiblePlansPage.tsx:69-80 | completing a day twice is the same as once |
| Plans.ToggleDayTwiceStatus | pages/BiblePlansPage.tsx:53-67 | toggling a day twice restores every day's completion status |
| Plans.ToggleDayTwice | pages/BiblePlansPage.tsx:53-67 | with only true flags and the plan stored, toggling twice restores the map |
| Plans.ToggleDayTwiceLeavesEmptyPlan | pages/BiblePlansPage.tsx:53-67 | toggling a day of an absent plan twice leaves an empty plan map behind |
| Cards.CollectedVerses | pages/JesusSaidPage.tsx:94 | exactly the verses of the collected cards |
| Cards.Uncollected | pages/JesusSaidPage.tsx:94-95 | exactly the pool entries whose verse is not collected |
| Cards.Draw | pages/JesusSaidPage.tsx:87-120 | below 3 points or with nothing left only the error is set and points are unchanged; otherwise the new card is an uncollected pool entry under a fresh id and today's date, and points drop by exactly 3 |
| Cards.Collect | pages/JesusSaidPage.tsx:122-127 | without a current card nothing changes; otherwise the collection gains exactly that card, sorted newest first, and the display clears |
| Cards.DrawKeepsInv | pages/JesusSaidPage.tsx:87-120 | collected verses stay distinct and a displayed card's verse is uncollected, whether the draw succeeds or not |
| Cards.CollectKeepsInv | pages/JesusSaidPage.tsx:122-127 | collecting keeps verses distinct and grows the collection by one |
| Cards.DrawKeepsPointsNonNegative | pages/JesusSaidPage.tsx:88-117 | points never go negative through a draw |
| Cards.FilteredCards | pages/JesusSaidPage.tsx:159-167 | an empty search shows the collection as stored; otherwise exactly the cards whose verse, message or prayer matches, in stored order |
| Notes.TagsOf | pages/MessageNotesPage.tsx:29 | exactly the tags some note carries |
| Notes.Dedup | pages/MessageNotesPage.tsx:28-30 | the `Set` holds the same tags, each once |
| Notes.UsedTags | pages/MessageNotesPage.tsx:28-30 | the tags in use, each once, in ascending order |
| Notes.AllTags | pages/MessageNotesPage.tsx:27-31 | `"all"` followed by the sorted, duplicate-free tags in use |
| Notes.AllTagsBySet | pages/MessageNotesPage.tsx:27-31 | notes using the same tags offer the same filter list, whatever their order or count |
| Notes.SortedNotes | pages/MessageNotesPage.tsx:33-46 | a note is shown exactly when it passes the tag tab and the search over title, speaker and content, ordered by date |
| Notes.UnfilteredNotesArePermutation | pages/MessageNotesPage.tsx:33-46 | the "all" tab with no search shows every note, reordered |
| Notes.OfferedTagsShowNotes | pages/MessageNotesPage.tsx:27-46 | every offered tag shows at least one note |
| Notes.ViewShowsStoredNotes | pages/MessageNotesPage.tsx:33-46 | the view never alters a note |
| Notes.SaveNote | pages/MessageNotesPage.tsx:48-57 | a stored id is replaced in place with the order unchanged; a new note is added and the list re-sorted newest first, one longer; ids stay distinct |
| Notes.SaveNoteTwice | pages/MessageNotesPage.tsx:48-57 | saving the same note twice is the same as once |
| Notes.SaveNewThenFind | pages/MessageNotesPage.tsx:50-56 | after a new note is saved, `findIndex` of its id finds it |
| NoteForm.TrimAll | components/MessageNoteForm.tsx:31 | each piece trimmed, positions kept |
| NoteForm.TrimAllWellFormed | components/MessageNoteForm.tsx:31 | trimmed comma-free pieces are empty or well-formed tags |
| NoteForm.ParseTags | components/MessageNoteForm.tsx:31 | every parsed tag is non-empty, comma-free and trimmed, and exactly the non-empty trimmed pieces are kept in order |
| NoteForm.InitialTagInput | components/MessageNoteForm.tsx:19 | a new note starts with empty input; an existing note's well-formed tags parse back from it |
| NoteForm.ParseJoined | components/MessageNoteForm.tsx:19-31 | well-formed tags joined with ", " parse back to themselves |
| NoteForm.ParseTagsStable | components/MessageNoteForm.tsx:19-31 | re-opening and saving a parsed tag list changes nothing |
| NoteForm.NewNote | components/MessageNoteForm.tsx:9-18 | a new note has no tags and empty title, speaker and content |
| NoteForm.OpenForm | components/MessageNoteForm.tsx:9-19 | editing starts from the stored note with its tags joined into the input |
| NoteForm.ChangeNote | components/MessageNoteForm.tsx:21-28 | each input changes only its own field |
| NoteForm.SaveForm | components/MessageNoteForm.tsx:30-33 | save replaces only `tags`, by the parsed input |
| NoteForm.OpenThenSave | components/MessageNoteForm.tsx:9-33 | opening a note with well-formed tags and saving unchanged gives the note back |
| NoteForm.BlankTagIsNormalised | components/MessageNoteForm.tsx:19-31 | a stored tag with a leading blank comes back trimmed after a round trip |
| Shares.SortedShares | pages/SmallGroupSharePage.tsx:25-36 | a share is shown exactly when the search is empty or matches group, book, topic or text, ordered by date |
| Shares.EmptySearchShowsAll | pages/SmallGroupSharePage.tsx:25-36 | an empty search shows every share, reordered |
| Shares.OrderKeepsContents | pages/SmallGroupSharePage.tsx:25-36 | the sort direction changes only the order |
| Shares.ShareLabel | pages/SmallGroupSharePage.tsx:97 | the label starts with the book and a blank, and has a verse part exactly when the verse is non-empty |
| Shares.SameLabelSameReference | pages/SmallGroupSharePage.tsx:97 | for one book, two shares have the same label exactly when chapter and verse agree |
| Entities.ScriptureLabel | pages/JournalPage.tsx:186 | `book + " " + chapter`, then `":" + verse` only when the verse is non-empty |
| Entities.LabelDeterminesReference | pages/JournalPage.tsx:186 | a label determines its chapter and verse |
| ShareForm.NewShare | components/SmallGroupShareForm.tsx:10-21 | a new share starts at chapter 1 of the first book with empty texts |
| ShareForm.OpenShareForm | components/SmallGroupShareForm.tsx:10-21 | editing starts from the stored share itself |
| ShareForm.SelectedBook | components/SmallGroupShareForm.tsx:23 | the first book with the name, or the first book when none has it |
| ShareForm.FindBook | components/SmallGroupShareForm.tsx:23 | `find` is empty exactly when no book has the name, else the first such book |
| ShareForm.ChapterOptions | components/SmallGroupShareForm.tsx:50 | the options are 1, 2, ... up to the book's chapter count |
| ShareForm.OfferedChapters | components/SmallGroupShareForm.tsx:50 | a chapter is offered exactly when it lies in 1..chapters |
| ShareForm.ChangeShare | components/SmallGroupShareForm.tsx:25-31 | choosing a book resets the chapter to 1; any other input changes only its own field |
| ShareForm.NewShareOffered | components/SmallGroupShareForm.tsx:10-50 | a new share's chapter is among the offered options |
| ShareForm.ChangeKeepsChapterOffered | components/SmallGroupShareForm.tsx:23-50 | every change keeps the chapter among the offered options |
| Merge.PutAll | pages/SettingsPage.tsx:77-82 | putting items one by one into an insertion-ordered map keeps the existing ids in their positions and keeps ids distinct |
| Merge.PutAllIds | pages/SettingsPage.tsx:77-80 | the merged ids are exactly the existing and the put ones, and every merged item comes from one of them |
| Merge.PutAllLastWins | pages/SettingsPage.tsx:78-80 | for every id that was put, the merged item is the last one put with that id |
| Merge.PutAllKeepsUntouched | pages/SettingsPage.tsx:77-82 | an existing item whose id was not put stays where it was |
| Merge.PutAllNewOrder | pages/SettingsPage.tsx:77-82 | new ids follow the existing ones, in the order they first arrive |
| Merge.PutAllFresh | pages/SettingsPage.tsx:77-82 | with all ids distinct, the merge is plain concatenation |
| Merge.PutAllPresent | pages/SettingsPage.tsx:77-82 | when every put id already exists, the length stays and each position keeps its id |
| Merge.PutAllIdempotent | pages/SettingsPage.tsx:78-80 | putting the same items twice is the same as once |
| Merge.Importable | pages/SettingsPage.tsx:79 | exactly the imported items with a truthy id |
| Merge.ImportableIds | pages/SettingsPage.tsx:79 | the importable ids are the imported non-empty ones |
| Merge.LoadUnique | pages/SettingsPage.tsx:77 | building the map from stored items with distinct ids gives them back |
| Merge.MergeById | pages/SettingsPage.tsx:76-82 | ids distinct; ids are the existing and the imported non-empty ones; the import wins on collision; existing positions kept |
| Merge.MergeIdempotent | pages/SettingsPage.tsx:76-83 | merging the same import twice equals merging it once |
| Merge.MergeIntoEmpty | pages/SettingsPage.tsx:76-82 | merging well-keyed items into nothing gives them back |
| Merge.MergeSelf | pages/SettingsPage.tsx:76-82 | merging a well-keyed list with itself gives it back |
| Backup.Export | pages/SettingsPage.tsx:10-20 | seven keys, each as stored, with [] , {} and 0 for absent ones |
| Backup.MergeKey | pages/SettingsPage.tsx:72-83 | a non-array value leaves the key; otherwise stored and imported items are merged by id, absent or falsy counting as [] |
| Backup.FalsyMergesAsEmpty | pages/SettingsPage.tsx:73-74 | a falsy collection merges exactly like an empty array |
| Backup.MergeKeyIdempotent | pages/SettingsPage.tsx:72-83 | merging one key twice equals merging it once |
| Backup.AddMark | pages/SettingsPage.tsx:96-97 | one more chapter is marked and nothing else changes |
| Backup.RebuildTracker | pages/SettingsPage.tsx:92-100 | a chapter is marked exactly when some completed entry with a book and a non-zero chapter covers it |
| Backup.Import | pages/SettingsPage.tsx:41-113 | an unparseable file changes nothing and fails; otherwise points are overwritten only by a number, plans only by a truthy value, collections are merged, and the tracker is rebuilt from the merged journal |
| Backup.ImportIdempotent | pages/SettingsPage.tsx:56-100 | importing the same document twice equals importing it once |
| Backup.ExportImportRoundTrip | pages/SettingsPage.tsx:10-100 | importing a store's own export keeps every collection, the points and the plans, and rebuilds the tracker from the journal |
| Backup.RebuildDropsManualMarks | pages/SettingsPage.tsx:92-100 | a chapter ticked by hand without a completed entry loses its mark on import |
| Navigation.IndexOf | pages/BiblePage.tsx:111 | `indexOf` is -1 exactly for unlisted names, and otherwise the name's position |
| Navigation.ShortNameOf | pages/BiblePage.tsx:20-35 | a short name exists exactly for the listed books |
| Navigation.MaxChaptersOf | pages/BiblePage.tsx:37-52 | a chapter count exists exactly for the listed books |
| Navigation.TableSizes | pages/BiblePage.tsx:20-54 | the book order and both tables have 66 entries |
| Navigation.TableEntries | pages/BiblePage.tsx:20-52 | every short name is non-empty and every book has at least one chapter |
| Navigation.OrderDistinct | pages/BiblePage.tsx:20-54 | the book order lists each book once |
| Navigation.PositionOf | pages/BiblePage.tsx:37-65 | a listed book is found at its position, and its chapter count is its positive table entry |
| Navigation.StartIsSettled | pages/BiblePage.tsx:57-68 | the reader opens at chapter 1 of the first book with its 50 chapters |
| Navigation.SettleFits | pages/BiblePage.tsx:64-68 | after a book change the count is the book's own, and the chapter is kept if it fits and reset to 1 otherwise |
| Navigation.ChaptersFor | pages/BiblePage.tsx:65 | the count with its fallback to 50 is always at least 1, and 50 for an unlisted book |
| Navigation.Settle | pages/BiblePage.tsx:64-68 | the effect keeps the book, takes its count, and keeps the chapter when it fits and resets it to 1 otherwise (see `Navigation.SettleFits` for the invariant) |
| Navigation.MoveTo | pages/BiblePage.tsx:103-129 | a move lands on the named book at the named chapter or at 1, with the new book's count when the book changes |
| Navigation.SelectBook | pages/BiblePage.tsx:103-108 | a book select either changes nothing or opens a listed book at chapter 1 (characterised by `Navigation.SelectBookAcceptsListed`) |
| Navigation.SelectChapter | pages/BiblePage.tsx:155-163 | a chapter select changes only the chapter (its range by `Navigation.SelectChapterKeepsInv`) |
| Navigation.Next | pages/BiblePage.tsx:110-118 | the right arrow stays put, moves one chapter on in the same book, or opens chapter 1 of the next book in order (cases by `Navigation.NextCases`) |
| Navigation.Prev | pages/BiblePage.tsx:120-129 | the left arrow stays put, moves one chapter back in the same book, or opens the previous book at its last chapter (cases by `Navigation.PrevCases`) |
| Navigation.UnlistedBookHasFifty | pages/BiblePage.tsx:65 | an unlisted book gets 50 chapters |
| Navigation.SelectBookAcceptsListed | pages/BiblePage.tsx:103-108 | a listed name opens at chapter 1 with its count; any other name changes nothing |
| Navigation.SelectChapterKeepsInv | pages/BiblePage.tsx:155-163 | choosing an offered chapter keeps the chapter within range |
| Navigation.NextCases | pages/BiblePage.tsx:110-118 | the right arrow goes to the next chapter, or to chapter 1 of the next book, or nowhere at the very end, keeping the chapter in range |
| Navigation.PrevCases | pages/BiblePage.tsx:120-129 | the left arrow goes to the previous chapter, or to the last chapter of the previous book, or nowhere at the very start, keeping the chapter in range |
| Navigation.NextDisabledIffStuck | pages/BiblePage.tsx:166-168 | the right arrow is disabled exactly when it would do nothing |
| Navigation.PrevDisabledIffStuck | pages/BiblePage.tsx:135-137 | the left arrow is disabled exactly when it would do nothing |
| Navigation.PrevAfterNext | pages/BiblePage.tsx:110-129 | away from the end, back after forward is the identity |
| Navigation.NextAfterPrev | pages/BiblePage.tsx:110-129 | away from the start, forward after back is the identity |
| Navigation.NextAdvancesOne | pages/BiblePage.tsx:110-118 | the right arrow moves exactly one chapter forward in whole-Bible reading order |
| Navigation.PrevRetreatsOne | pages/BiblePage.tsx:120-129 | the left arrow moves exactly one chapter back in whole-Bible reading order |
| LocalStore.Read | hooks/useLocalStorage.ts:25-37 | the stored string deserialized when present, non-empty and parseable; otherwise the fallback; reading never fails |
| LocalStore.Open | hooks/useLocalStorage.ts:10-37 | a mounted binding holds its key, its tab option and the value read |
| LocalStore.Persist | hooks/useLocalStorage.ts:40-53 | a successful write stores the serialized value under the key and emits the notice; a failed one changes nothing and emits nothing; other keys are untouched |
| LocalStore.Deliver | hooks/useLocalStorage.ts:61-66 | a notice replaces the value of a binding on its key and is ignored by the others |
| LocalStore.FromOtherTab | hooks/useLocalStorage.ts:73-92 | only a listening binding reacts, only to its own key with a non-empty new value, and only when it parses |
| LocalStore.Broadcast | hooks/useLocalStorage.ts:56-70 | every binding on the page hears the notice |
| LocalStore.SetReachesSameKey | hooks/useLocalStorage.ts:40-70 | after a stored set, the storage holds the new string and every binding on that key holds the value; other bindings are unchanged |
| LocalStore.FailedSetKeepsValue | hooks/useLocalStorage.ts:45-52 | a failed write leaves storage unchanged while the setter's binding keeps its new value |
| LocalStore.ReadAfterWrite | hooks/useLocalStorage.ts:30-47 | a value written and read back is the value; other keys read as before |
| LocalStore.SetKeepsSameKeyInStep | hooks/useLocalStorage.ts:25-70 | after a stored set, every binding on that key holds what a fresh mount would read |
| LocalStore.MountWritesBack | hooks/useLocalStorage.ts:25-53 | the mount-time write stores the value just read, so an unusable stored string is replaced by the serialized fallback |
| LocalStore.OwnNoticeIsHarmless | hooks/useLocalStorage.ts:61-66 | a binding hearing its own notice is unchanged |
| LocalStore.OtherTabWriteArrives | hooks/useLocalStorage.ts:75-84 | a listening binding takes the value another tab wrote; a non-listening one keeps its own |
| LocalStore.ClearIsIgnored | hooks/useLocalStorage.ts:80 | an event with a null key (another tab clearing storage) reaches no binding |

## Left out

- Rendering, CSS, `filterPositions`, expand and collapse state, the comment-draft map and the click-outside listeners: presentation only.
- `App.tsx`, `Header.tsx`, `BottomNav.tsx`, `MorePage.tsx` and `ConfirmationModal.tsx`: page switching and markup, with no state logic.
- The verse `fetch` in `BiblePage` (pages/BiblePage.tsx:70-101), file reading, the download link and `window.location.reload`: browser I/O.
- `crypto.randomUUID`, `new Date()` and `Math.random`: parameters (fresh id, today's date, any pool index); the distribution of the draw is not modelled.
- The draw's 500 ms `setTimeout`: the check and the deduction are treated as one step, so a second draw fired during the delay is not modelled.
- `calculateDaysPassed` and every percentage with `Math.round`: date and floating-point arithmetic.
- `localeCompare`, `toLowerCase` and `trim`: modelled as lexicographic order on code points (which differs from JavaScript's UTF-16 code-unit comparison for characters beyond the Basic Multilingual Plane), ASCII-only lower-casing and the JavaScript whitespace set; locale collation and non-ASCII case mapping are not.
- The `typeof window === 'undefined'` server-side checks in `useLocalStorage`: the model always runs in a browser.
- The echo write a binding performs after it takes a notice, and React's skip of a `setState` with an identical value: the model delivers each notice once.
- LocalStore.Set: all bindings on one page hold values of one type, and its contract is stated through `SetReachesSameKey` and `FailedSetKeepsValue`.
- The journal's own mount-time migration (pages/JournalPage.tsx:103-118): only the prayer list's migration is modelled.
- The static tables `BIBLE_BOOKS`, `JESUS_SAID_DATA` and `BIBLE_PLANS` are not part of this model: they are parameters. The Bible reader's two 66-book tables are modelled as literals, aligned by position, since both list the same books in the same order.
- A chapter that the share form's and the journal form's chapter `select` store as a string (pages/JournalPage.tsx:38), and plan or tracker keys that are not numbers: chapters and days are integers throughout.
- Backup.Import: a parse failure of an existing stored collection, an imported item that is `null`, and a truthy `biblePlansProgress` that is not an object are not modelled.
- Backup.Import: `gracePoints` is modelled as an integer, so a fractional or non-finite imported number is not modelled.
