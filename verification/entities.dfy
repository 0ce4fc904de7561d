/** The records the app stores, shaped after its type declarations. Optional
    properties (`verse?`, `title?`, `answeredDate?`, `godsResponse?`) are
    `Option`s; numbers that hold counts or chapter numbers are `int`. */
module Entities {
  import opened Wrappers
  import opened Text

  datatype Comment = Comment(id: string, text: string, createdAt: string)

  datatype JournalEntry = JournalEntry(
    id: string,
    date: string,
    book: string,
    chapter: int,
    verse: Option<string>,
    title: Option<string>,
    highlights: string,
    godMessage: string,
    completed: bool,
    likes: int,
    liked: bool,
    comments: seq<Comment>)

  datatype PrayerItem = PrayerItem(
    id: string,
    title: string,
    person: string,
    content: string,
    prayerDate: string,
    answered: bool,
    answeredDate: Option<string>,
    godsResponse: Option<string>,
    likes: int,
    liked: bool,
    comments: seq<Comment>)

  datatype Testament = Old | New

  datatype BibleBook = BibleBook(name: string, chapters: int, testament: Testament)

  /** A collected card. */
  datatype JesusSaidCard = JesusSaidCard(id: string, date: string, verse: string, message: string, prayer: string)

  /** An entry of the card pool a draw picks from. */
  datatype JesusSaidData = JesusSaidData(verse: string, message: string, prayer: string)

  datatype MessageNote = MessageNote(
    id: string,
    date: string,
    title: string,
    speaker: string,
    content: string,
    tags: seq<string>)

  datatype SmallGroupShare = SmallGroupShare(
    id: string,
    date: string,
    groupName: string,
    book: string,
    chapter: int,
    verse: string,
    topic: string,
    myShare: string)

  // The `id` and date accessors the generic list operations are given.
  function CommentId(c: Comment): string { c.id }
  function EntryId(e: JournalEntry): string { e.id }
  function EntryDate(e: JournalEntry): string { e.date }
  function PrayerId(p: PrayerItem): string { p.id }
  function PrayerDate(p: PrayerItem): string { p.prayerDate }
  function CardId(c: JesusSaidCard): string { c.id }
  function CardDate(c: JesusSaidCard): string { c.date }
  function NoteId(n: MessageNote): string { n.id }
  function NoteDate(n: MessageNote): string { n.date }
  function ShareId(s: SmallGroupShare): string { s.id }
  function ShareDate(s: SmallGroupShare): string { s.date }

  /** The reference text `book chapter[:verse]` shown as a journal entry's
      title and on a small-group share: the verse part appears only when the
      verse is non-empty. */
  function ScriptureLabel(book: string, chapter: int, verse: string): (r: string)
    ensures |r| >= |book| + 1 + |IntToDecimal(chapter)|
    ensures r[..|book| + 1] == book + " "
    ensures var rest := r[|book| + 1..];
      && rest[..|IntToDecimal(chapter)|] == IntToDecimal(chapter)
      && (verse == "" <==> |rest| == |IntToDecimal(chapter)|)
      && (verse != "" ==> rest[|IntToDecimal(chapter)|..] == [':'] + verse)
  {
    var r := book + " " + IntToDecimal(chapter) + (if verse == "" then "" else ":" + verse);
    assert r[|book| + 1..] == IntToDecimal(chapter) + (if verse == "" then "" else ":" + verse);
    r
  }

  /** A label names its chapter and verse unambiguously: for one book, two
      references with the same label are the same reference. */
  lemma LabelDeterminesReference(book: string, c1: int, v1: string, c2: int, v2: string)
    requires ScriptureLabel(book, c1, v1) == ScriptureLabel(book, c2, v2)
    ensures c1 == c2 && v1 == v2
  {
    var r := ScriptureLabel(book, c1, v1);
    var rest := r[|book| + 1..];
    var d1, d2 := IntToDecimal(c1), IntToDecimal(c2);
    assert rest == d1 + rest[|d1|..];
    assert rest == d2 + rest[|d2|..];
    UpToColonOf(d1, rest[|d1|..]);
    UpToColonOf(d2, rest[|d2|..]);
    SignedRoundTrip(c1);
    SignedRoundTrip(c2);
    if v1 != "" && v2 != "" {
      assert ([':'] + v1)[1..] == v1 && ([':'] + v2)[1..] == v2;
    }
  }
}
