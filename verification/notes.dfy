/** The sermon-note page: the tag list offered as a filter, the filtered
    and dated view, and save. Deleting and selecting go through
    `Selection`. */
module Notes {
  import opened Text
  import opened Lists
  import opened Keyed
  import opened Entities

  /** Some note carries tag `t`. */
  predicate UsesTag(notes: seq<MessageNote>, t: string) {
    exists n :: n in notes && t in n.tags
  }

  /** Every tag of every note, in note order, repeats included. */
  function TagsOf(notes: seq<MessageNote>): (r: seq<string>)
    ensures forall t :: t in r <==> UsesTag(notes, t)
    decreases |notes|
  {
    if |notes| == 0 then []
    else
      var rest := TagsOf(notes[1..]);
      assert forall n :: n in notes[1..] ==> n in notes;
      assert forall n :: n in notes ==> n == notes[0] || n in notes[1..];
      notes[0].tags + rest
  }

  /** Each item occurs at most once. */
  ghost predicate NoRepeats(s: seq<string>) {
    forall x :: multiset(s)[x] <= 1
  }

  /** A `Set` filled from `xs`: first occurrences, in arrival order. */
  function Dedup(xs: seq<string>): (r: seq<string>)
    ensures forall t :: t in r <==> t in xs
    ensures NoRepeats(r)
    decreases |xs|
  {
    if |xs| == 0 then []
    else
      var init := xs[..|xs| - 1];
      var last := xs[|xs| - 1];
      var d := Dedup(init);
      assert xs == init + [last];
      if last in d then d
      else
        assert multiset(d)[last] == 0;
        d + [last]
  }

  /** The tags in use, once each, in ascending order. */
  function UsedTags(notes: seq<MessageNote>): (r: seq<string>)
    ensures forall t :: t in r <==> UsesTag(notes, t)
    ensures NoRepeats(r)
    ensures Sorted(r, Self, Asc)
  {
    var d := Dedup(TagsOf(notes));
    var sorted := SortBy(d, Self, Asc);
    assert forall t :: t in sorted <==> t in multiset(d);
    sorted
  }

  /** `allTags`: the "all" entry, then every tag in use, once each, in order. */
  function AllTags(notes: seq<MessageNote>): (r: seq<string>)
    ensures |r| >= 1 && r[0] == "all"
    ensures r[1..] == UsedTags(notes)
  {
    var used := UsedTags(notes);
    assert (["all"] + used)[1..] == used;
    ["all"] + used
  }

  /** Dropping the head of a sequence without repeats drops exactly that
      item and keeps the order and the absence of repeats. */
  lemma TailWithoutHead(a: seq<string>)
    requires |a| > 0 && NoRepeats(a) && Sorted(a, Self, Asc)
    ensures NoRepeats(a[1..]) && Sorted(a[1..], Self, Asc)
    ensures forall x :: x in a[1..] <==> x in a && x != a[0]
  {
    assert a == [a[0]] + a[1..];
    assert multiset(a) == multiset{a[0]} + multiset(a[1..]);
    assert multiset(a)[a[0]] <= 1;
    assert multiset(a[1..])[a[0]] == 0;
    forall x ensures multiset(a[1..])[x] <= 1 {
      assert multiset(a)[x] <= 1;
    }
    forall x ensures x in a[1..] <==> x in a && x != a[0] {
      assert x in a[1..] <==> x in multiset(a[1..]);
    }
  }

  /** Two ascending sequences holding the same items start with the same item. */
  lemma SameLeast(a: seq<string>, b: seq<string>)
    requires |a| > 0 && |b| > 0
    requires Sorted(a, Self, Asc) && Sorted(b, Self, Asc)
    requires forall x :: x in a <==> x in b
    ensures a[0] == b[0]
  {
    FirstIsMember(a);
    FirstIsMember(b);
    var i :| 0 <= i < |a| && a[i] == b[0];
    var j :| 0 <= j < |b| && b[j] == a[0];
    assert LexLe(a[0], b[0]) by {
      if i > 0 { assert InOrder(Self(a[0]), Self(a[i]), Asc); } else { LexLeTotal(a[0], a[0]); }
    }
    assert LexLe(b[0], a[0]) by {
      if j > 0 { assert InOrder(Self(b[0]), Self(b[j]), Asc); } else { LexLeTotal(b[0], b[0]); }
    }
    LexLeAntisymmetric(a[0], b[0]);
  }

  /** Two ascending sequences without repeats that hold the same items are
      the same sequence. */
  lemma {:induction false} SortedSetsEqual(a: seq<string>, b: seq<string>)
    requires Sorted(a, Self, Asc) && Sorted(b, Self, Asc)
    requires NoRepeats(a) && NoRepeats(b)
    requires forall x :: x in a <==> x in b
    ensures a == b
    decreases |a|
  {
    if |a| == 0 {
      NoMembersEmpty(b);
    } else if |b| == 0 {
      NoMembersEmpty(a);
    } else {
      SameLeast(a, b);
      TailWithoutHead(a);
      TailWithoutHead(b);
      SortedSetsEqual(a[1..], b[1..]);
      assert a == [a[0]] + a[1..] && b == [b[0]] + b[1..];
    }
  }

  /** The tag list depends only on which tags are in use: notes that use the
      same tags offer the same filter list, whatever their order or count. */
  lemma AllTagsBySet(xs: seq<MessageNote>, ys: seq<MessageNote>)
    requires forall t :: UsesTag(xs, t) <==> UsesTag(ys, t)
    ensures AllTags(xs) == AllTags(ys)
  {
    var a, b := AllTags(xs), AllTags(ys);
    SortedSetsEqual(UsedTags(xs), UsedTags(ys));
    assert a == [a[0]] + a[1..] && b == [b[0]] + b[1..];
  }

  /** The filter of `sortedNotes`: the tag tab, then the search box (skipped
      while the box is empty) over title, speaker and content. */
  predicate NoteKeeps(n: MessageNote, tag: string, term: string) {
    && (tag == "all" || tag in n.tags)
    && (term == "" || MatchesSearch(n.title, term) || MatchesSearch(n.speaker, term) || MatchesSearch(n.content, term))
  }

  /** `sortedNotes`: the notes passing the tag tab and the search, ordered by
      date in the chosen direction. */
  function SortedNotes(notes: seq<MessageNote>, tag: string, term: string, order: SortOrder): (r: seq<MessageNote>)
    ensures forall n :: n in r <==> n in notes && NoteKeeps(n, tag, term)
    ensures Sorted(r, NoteDate, order)
    ensures multiset(r) <= multiset(notes)
  {
    View(notes, n => NoteKeeps(n, tag, term), NoteDate, order)
  }

  /** The "all" tab with an empty search shows every note, reordered. */
  lemma UnfilteredNotesArePermutation(notes: seq<MessageNote>, order: SortOrder)
    ensures multiset(SortedNotes(notes, "all", "", order)) == multiset(notes)
  {
    FilterKeepsAll(notes, n => NoteKeeps(n, "all", ""));
  }

  /** Every tag the filter list offers shows at least one note. */
  lemma OfferedTagsShowNotes(notes: seq<MessageNote>, k: int, order: SortOrder)
    requires 1 <= k < |AllTags(notes)|
    ensures SortedNotes(notes, AllTags(notes)[k], "", order) != []
  {
    var tags := AllTags(notes);
    assert tags[k] == tags[1..][k - 1];
    assert tags[k] in UsedTags(notes);
    var n :| n in notes && tags[k] in n.tags;
    assert NoteKeeps(n, tags[k], "");
  }

  /** The view never alters a note: what is shown is what is stored. */
  lemma ViewShowsStoredNotes(notes: seq<MessageNote>, tag: string, term: string, order: SortOrder, i: int)
    requires 0 <= i < |SortedNotes(notes, tag, term, order)|
    ensures SortedNotes(notes, tag, term, order)[i] in notes
  {
  }

  /** `handleSave`: a note whose id is stored replaces the first note with
      that id where it stands; a new note is put in front and the whole list
      is then sorted newest first. */
  function SaveNote(notes: seq<MessageNote>, note: MessageNote): (r: seq<MessageNote>)
    ensures HasId(notes, note.id, NoteId) ==>
      var k := FindIndex(notes, note.id, NoteId);
      |r| == |notes| && r[k] == note && forall i :: 0 <= i < |notes| && i != k ==> r[i] == notes[i]
    ensures !HasId(notes, note.id, NoteId) ==>
      && multiset(r) == multiset(notes) + multiset{note}
      && |r| == |notes| + 1
      && Sorted(r, NoteDate, Desc)
    ensures note in r
    ensures UniqueIds(notes, NoteId) ==> UniqueIds(r, NoteId)
  {
    if HasId(notes, note.id, NoteId) then Put(notes, note, NoteId)
    else
      var r := SortBy([note] + notes, NoteDate, Desc);
      assert note in multiset(r);
      assert UniqueIds(notes, NoteId) ==> UniqueIds(r, NoteId) by {
        if UniqueIds(notes, NoteId) {
          assert UniqueIds([note] + notes, NoteId) by {
            assert forall i :: 0 < i <= |notes| ==> ([note] + notes)[i] == notes[i - 1];
          }
          PermutationKeepsUniqueIds([note] + notes, r, NoteId);
        }
      }
      r
  }

  /** Saving the same note twice is the same as saving it once. */
  lemma SaveNoteTwice(notes: seq<MessageNote>, note: MessageNote)
    ensures SaveNote(SaveNote(notes, note), note) == SaveNote(notes, note)
  {
    var once := SaveNote(notes, note);
    assert note in once;
    var j :| 0 <= j < |once| && once[j] == note;
    assert HasId(once, note.id, NoteId);
    if HasId(notes, note.id, NoteId) {
      PutTwice(notes, note, NoteId);
    } else {
      var k := FindIndex(once, note.id, NoteId);
      assert once[k].id == note.id;
      SaveNewThenFind(notes, note);
    }
  }

  /** After a new note is saved, the first note carrying its id is the note
      itself, provided no stored note already carried that id. */
  lemma SaveNewThenFind(notes: seq<MessageNote>, note: MessageNote)
    requires !HasId(notes, note.id, NoteId)
    ensures var r := SaveNote(notes, note);
      FindIndex(r, note.id, NoteId) >= 0 && r[FindIndex(r, note.id, NoteId)] == note
  {
    var r := SaveNote(notes, note);
    assert note in r;
    var k := FindIndex(r, note.id, NoteId);
    assert forall x :: x in notes ==> x.id != note.id;
    assert r[k] in multiset(notes) + multiset{note};
  }
}
