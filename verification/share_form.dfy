/** The small-group share form: its starting state, the book it treats as
    selected, the chapters it offers and its change handler. The book table
    is a parameter. */
module ShareForm {
  import opened Wrappers
  import opened Entities

  /** A blank share on the first book of the table, chapter 1. */
  function NewShare(id: string, today: string, books: seq<BibleBook>): (r: SmallGroupShare)
    requires |books| > 0
    ensures r.id == id && r.date == today
    ensures r.book == books[0].name && r.chapter == 1
    ensures r.groupName == "" && r.verse == "" && r.topic == "" && r.myShare == ""
  {
    SmallGroupShare(id, today, "", books[0].name, 1, "", "", "")
  }

  /** `share || {...}`: editing starts from the stored share. */
  function OpenShareForm(share: Option<SmallGroupShare>, id: string, today: string, books: seq<BibleBook>): (r: SmallGroupShare)
    requires |books| > 0
    ensures share.Some? ==> r == share.value
    ensures share.None? ==> r == NewShare(id, today, books)
  {
    share.GetOr(NewShare(id, today, books))
  }

  /** `BIBLE_BOOKS.find(b => b.name === name) || BIBLE_BOOKS[0]`. */
  function SelectedBook(books: seq<BibleBook>, name: string): (r: BibleBook)
    requires |books| > 0
    ensures r in books
    ensures (exists b :: b in books && b.name == name) ==>
      r.name == name && exists i :: 0 <= i < |books| && books[i] == r && forall j :: 0 <= j < i ==> books[j].name != name
    ensures (forall b :: b in books ==> b.name != name) ==> r == books[0]
  {
    FindBook(books, name).GetOr(books[0])
  }

  /** The first book of the table carrying `name`. */
  function FindBook(books: seq<BibleBook>, name: string): (r: Option<BibleBook>)
    ensures r.None? <==> forall b :: b in books ==> b.name != name
    ensures r.Some? ==>
      && r.value.name == name
      && exists i :: 0 <= i < |books| && books[i] == r.value && forall j :: 0 <= j < i ==> books[j].name != name
    decreases |books|
  {
    if |books| == 0 then None
    else if books[0].name == name then Some(books[0])
    else
      var rest := FindBook(books[1..], name);
      assert forall b :: b in books ==> b == books[0] || b in books[1..];
      if rest.Some? then
        var i :| 0 <= i < |books[1..]| && books[1..][i] == rest.value && forall j :: 0 <= j < i ==> books[1..][j].name != name;
        assert books[i + 1] == rest.value;
        rest
      else rest
  }

  /** `Array.from({ length: chapters }, (_, i) => i + 1)`: the chapter
      numbers offered, none for a non-positive count. */
  function ChapterOptions(count: int): (r: seq<int>)
    ensures |r| == if count > 0 then count else 0
    ensures forall k :: 0 <= k < |r| ==> r[k] == k + 1
  {
    seq(if count > 0 then count else 0, k => k + 1)
  }

  /** A chapter is offered exactly when it lies between 1 and the count. */
  lemma OfferedChapters(count: int, c: int)
    ensures c in ChapterOptions(count) <==> 1 <= c <= count
  {
    if 1 <= c <= count {
      assert ChapterOptions(count)[c - 1] == c;
    }
  }

  /** One `onChange` event of the form. */
  datatype ShareChange =
    | GroupInput(groupName: string)
    | DateInput(date: string)
    | BookSelect(book: string)
    | ChapterSelect(chapter: int)
    | VerseInput(verse: string)
    | TopicInput(topic: string)
    | ShareInput(myShare: string)

  /** `handleChange`: the named field takes the new value; choosing a book
      also resets the chapter to 1. */
  function ChangeShare(f: SmallGroupShare, c: ShareChange): (r: SmallGroupShare)
    ensures c.BookSelect? ==> r == f.(book := c.book, chapter := 1)
    ensures c.ChapterSelect? ==> r == f.(chapter := c.chapter)
    ensures c.GroupInput? ==> r == f.(groupName := c.groupName)
    ensures c.DateInput? ==> r == f.(date := c.date)
    ensures c.VerseInput? ==> r == f.(verse := c.verse)
    ensures c.TopicInput? ==> r == f.(topic := c.topic)
    ensures c.ShareInput? ==> r == f.(myShare := c.myShare)
    ensures r.id == f.id
  {
    match c
    case GroupInput(v) => f.(groupName := v)
    case DateInput(v) => f.(date := v)
    case BookSelect(v) => f.(book := v, chapter := 1)
    case ChapterSelect(v) => f.(chapter := v)
    case VerseInput(v) => f.(verse := v)
    case TopicInput(v) => f.(topic := v)
    case ShareInput(v) => f.(myShare := v)
  }

  /** The form's chapter is one the chapter list offers. */
  predicate ChapterOffered(f: SmallGroupShare, books: seq<BibleBook>)
    requires |books| > 0
  {
    f.chapter in ChapterOptions(SelectedBook(books, f.book).chapters)
  }

  /** Every book of the table has at least one chapter. */
  predicate ChaptersPositive(books: seq<BibleBook>) {
    forall b :: b in books ==> b.chapters >= 1
  }

  /** A new share starts on an offered chapter. */
  lemma NewShareOffered(id: string, today: string, books: seq<BibleBook>)
    requires |books| > 0 && ChaptersPositive(books)
    ensures ChapterOffered(NewShare(id, today, books), books)
  {
    OfferedChapters(SelectedBook(books, books[0].name).chapters, 1);
  }

  /** The chapter stays one the list offers through every change the form
      allows: a book change resets it to 1, and the chapter select only
      offers listed chapters. */
  lemma ChangeKeepsChapterOffered(f: SmallGroupShare, c: ShareChange, books: seq<BibleBook>)
    requires |books| > 0 && ChaptersPositive(books)
    requires ChapterOffered(f, books)
    requires c.ChapterSelect? ==> c.chapter in ChapterOptions(SelectedBook(books, f.book).chapters)
    ensures ChapterOffered(ChangeShare(f, c), books)
  {
    var r := ChangeShare(f, c);
    OfferedChapters(SelectedBook(books, r.book).chapters, 1);
  }
}
