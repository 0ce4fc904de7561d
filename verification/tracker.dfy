/** The reading tracker: the `book → chapter → true` map, toggled by hand on
    the tracker page and written by journal saves and deletes. A book whose
    chapter map becomes empty is dropped. */
module Tracker {
  import opened Progress
  import opened Entities

  /** Stores the inner map `m` under `book`, or drops `book` when `m` is
      empty (`Object.keys(bookProgress).length === 0`). */
  function StoreBook(p: ProgressMap, book: string, m: map<int, bool>): (r: ProgressMap)
    ensures |m| > 0 ==> book in r && r[book] == m
    ensures |m| == 0 ==> book !in r
    ensures SameOtherBooks(p, r, book)
    ensures NoEmptyBooks(p) ==> NoEmptyBooks(r)
    ensures AllTrue(p) && AllTrueIn(m) ==> AllTrue(r)
  {
    var r := if |m| > 0 then p[book := m] else p - {book};
    assert SameOtherBooks(p, r, book);
    assert NoEmptyBooks(p) ==> NoEmptyBooks(r) by {
      if NoEmptyBooks(p) { OtherBooksNonEmpty(p, r, book); }
    }
    assert AllTrue(p) && AllTrueIn(m) ==> AllTrue(r) by {
      if AllTrue(p) && AllTrueIn(m) { OtherBooksAllTrue(p, r, book); }
    }
    r
  }

  lemma OtherBooksNonEmpty(p: ProgressMap, r: ProgressMap, book: string)
    requires SameOtherBooks(p, r, book) && NoEmptyBooks(p) && (book in r ==> |r[book]| > 0)
    ensures NoEmptyBooks(r)
  {
    forall b | b in r ensures |r[b]| > 0 { if b != book { assert r[b] == p[b]; } }
  }

  lemma OtherBooksAllTrue(p: ProgressMap, r: ProgressMap, book: string)
    requires SameOtherBooks(p, r, book) && AllTrue(p) && (book in r ==> AllTrueIn(r[book]))
    ensures AllTrue(r)
  {
    forall b | b in r ensures AllTrueIn(r[b]) { if b != book { assert r[b] == p[b]; } }
  }

  /** The tracker page's toggle: a truthy chapter is removed, any other is set to `true`. */
  function ToggleChapter(p: ProgressMap, book: string, chapter: int): (r: ProgressMap)
    ensures Marked(r, book, chapter) <==> !Marked(p, book, chapter)
    ensures SameOtherKeys(ChaptersOf(p, book), ChaptersOf(r, book), chapter)
    ensures SameOtherBooks(p, r, book)
    ensures book in r ==> |r[book]| > 0
    ensures NoEmptyBooks(p) ==> NoEmptyBooks(r)
    ensures AllTrue(p) ==> AllTrue(r)
  {
    var bp := ChaptersOf(p, book);
    assert AllTrue(p) ==> AllTrueIn(bp);
    StoreBook(p, book, if Marked(p, book, chapter) then ClearFlag(bp, chapter) else SetFlag(bp, chapter))
  }

  /** Under the invariants every page keeps, toggling the same chapter twice
      restores the map. */
  lemma ToggleTwice(p: ProgressMap, book: string, chapter: int)
    requires AllTrue(p) && NoEmptyBooks(p)
    ensures ToggleChapter(ToggleChapter(p, book, chapter), book, chapter) == p
  {
    var p1 := ToggleChapter(p, book, chapter);
    var p2 := ToggleChapter(p1, book, chapter);
    var bp, bp2 := ChaptersOf(p, book), ChaptersOf(p2, book);
    assert AllTrueIn(bp) && AllTrueIn(bp2) by {
      if book in p { assert AllTrueIn(p[book]); }
      if book in p2 { assert AllTrueIn(p2[book]); }
    }
    FlagsAgree(bp, bp2, chapter);
    forall b | b != book ensures (b in p2 <==> b in p) && (b in p2 ==> p2[b] == p[b]) {
      assert b in p1 <==> b in p;
    }
    assert book in p <==> book in p2 by {
      assert book in p ==> |p[book]| > 0;
      assert book in p2 ==> |p2[book]| > 0;
    }
    BooksAgree(p, p2, book);
  }

  /** Two chapter maps of true flags that differ at most at `chapter`, and
      agree on whether `chapter` is set, are the same map. */
  lemma FlagsAgree(m: map<int, bool>, n: map<int, bool>, chapter: int)
    requires AllTrueIn(m) && AllTrueIn(n)
    requires SameOtherKeys(m, n, chapter)
    requires (chapter in m && m[chapter]) <==> (chapter in n && n[chapter])
    ensures m == n
  {
    assert chapter in m ==> m[chapter];
    assert chapter in n ==> n[chapter];
    forall k | k in m ensures k in n && n[k] == m[k] {
      if k == chapter { assert n[k]; }
    }
    forall k | k in n ensures k in m {
      if k == chapter { assert n[k]; }
    }
    assert m.Keys == n.Keys;
  }

  /** Two progress maps that differ at most at `book`, and agree there, are
      the same map. */
  lemma BooksAgree(p: ProgressMap, q: ProgressMap, book: string)
    requires SameOtherBooks(p, q, book)
    requires book in p <==> book in q
    requires ChaptersOf(p, book) == ChaptersOf(q, book)
    ensures p == q
  {
    assert p.Keys == q.Keys;
  }

  /** Without those invariants the double toggle is not the identity: a
      stored `false` flag turns into a missing key. */
  lemma ToggleTwiceNeedsTrueFlags()
    ensures var q := map["book" := map[1 := false]];
      ToggleChapter(ToggleChapter(q, "book", 1), "book", 1) == map[] != q
  {
    var q := map["book" := map[1 := false]];
    assert ChaptersOf(q, "book") == map[1 := false];
    assert SetFlag(map[1 := false], 1) == map[1 := true];
    assert q["book" := map[1 := true]] == map["book" := map[1 := true]];
    var q1 := ToggleChapter(q, "book", 1);
    assert q1 == map["book" := map[1 := true]];
    assert ClearFlag(map[1 := true], 1) == map[];
    assert q1 - {"book"} == map[];
    assert "book" in q;
  }

  /** A toggle moves the total key count by one, or not at all when it turns
      a stored `false` into `true`. */
  lemma ToggleCount(p: ProgressMap, book: string, chapter: int)
    ensures KeyCount(ToggleChapter(p, book, chapter)) ==
      KeyCount(p) + (if Marked(p, book, chapter) then -1 else if chapter in ChaptersOf(p, book) then 0 else 1)
  {
    var bp := ChaptersOf(p, book);
    var m := if Marked(p, book, chapter) then ClearFlag(bp, chapter) else SetFlag(bp, chapter);
    if |m| > 0 {
      KeyCountUpdate(p, book, m);
    } else {
      KeyCountDrop(p, book);
    }
  }

  /** The journal's write on save: the saved entry's chapter is set when the
      entry is completed and removed otherwise; nothing else is consulted. */
  function RecordChapter(p: ProgressMap, book: string, chapter: int, completed: bool): (r: ProgressMap)
    ensures Marked(r, book, chapter) <==> completed
    ensures SameOtherKeys(ChaptersOf(p, book), ChaptersOf(r, book), chapter)
    ensures SameOtherBooks(p, r, book)
    ensures book in r ==> |r[book]| > 0
    ensures NoEmptyBooks(p) ==> NoEmptyBooks(r)
    ensures AllTrue(p) ==> AllTrue(r)
  {
    var bp := ChaptersOf(p, book);
    assert AllTrue(p) ==> AllTrueIn(bp);
    StoreBook(p, book, if completed then SetFlag(bp, chapter) else ClearFlag(bp, chapter))
  }

  /** Storing a book's own chapter map again changes nothing. */
  lemma StoreBookSame(p: ProgressMap, book: string, m: map<int, bool>)
    requires ChaptersOf(p, book) == m
    requires book in p ==> |m| > 0
    ensures StoreBook(p, book, m) == p
  {
    if |m| > 0 {
      assert p[book := m] == p;
    } else {
      assert p - {book} == p;
    }
  }

  /** Setting a set flag or clearing a cleared one changes nothing. */
  lemma FlagSame(m: map<int, bool>, chapter: int, completed: bool)
    requires completed ==> chapter in m && m[chapter]
    requires !completed ==> chapter !in m
    ensures (if completed then SetFlag(m, chapter) else ClearFlag(m, chapter)) == m
  {
    if completed { assert m[chapter := true] == m; } else { assert m - {chapter} == m; }
  }

  /** Writing the same entry's status twice is the same as writing it once. */
  lemma RecordChapterIdempotent(p: ProgressMap, book: string, chapter: int, completed: bool)
    ensures RecordChapter(RecordChapter(p, book, chapter, completed), book, chapter, completed)
         == RecordChapter(p, book, chapter, completed)
  {
    var bp := ChaptersOf(p, book);
    var m := if completed then SetFlag(bp, chapter) else ClearFlag(bp, chapter);
    var r1 := StoreBook(p, book, m);
    assert RecordChapter(p, book, chapter, completed) == r1;
    assert ChaptersOf(r1, book) == m;
    FlagSame(m, chapter, completed);
    StoreBookSame(r1, book, m);
  }

  /** The journal's write for one deleted completed entry: only a book that
      is present is touched. */
  function Retract(p: ProgressMap, book: string, chapter: int): (r: ProgressMap)
    ensures !Marked(r, book, chapter)
    ensures forall b, c :: b != book || c != chapter ==> (Marked(r, b, c) <==> Marked(p, b, c))
    ensures r.Keys <= p.Keys
    ensures NoEmptyBooks(p) ==> NoEmptyBooks(r)
    ensures AllTrue(p) ==> AllTrue(r)
  {
    if book in p then
      var m := ClearFlag(p[book], chapter);
      var r := StoreBook(p, book, m);
      assert forall c :: c != chapter ==> (c in m <==> c in p[book]) && (c in m ==> m[c] == p[book][c]) by {
        forall c | c != chapter ensures (c in m <==> c in p[book]) && (c in m ==> m[c] == p[book][c]) {
          assert c in m - {chapter} <==> c in p[book] - {chapter};
        }
      }
      r
    else p
  }

  /** The delete path and the un-complete path of save write the same map. */
  lemma RetractIsUncomplete(p: ProgressMap, book: string, chapter: int)
    ensures Retract(p, book, chapter) == RecordChapter(p, book, chapter, false)
  {
    if book !in p {
      assert p - {book} == p;
    }
  }

  /** Some entry of `es` names this book and chapter. */
  predicate Covers(es: seq<JournalEntry>, book: string, chapter: int) {
    exists i :: 0 <= i < |es| && es[i].book == book && es[i].chapter == chapter
  }

  /** The deleted completed entries retracted one after another, in order. */
  function RetractAll(p: ProgressMap, es: seq<JournalEntry>): (r: ProgressMap)
    ensures r.Keys <= p.Keys
    ensures NoEmptyBooks(p) ==> NoEmptyBooks(r)
    ensures AllTrue(p) ==> AllTrue(r)
    decreases |es|
  {
    if |es| == 0 then p else RetractAll(Retract(p, es[0].book, es[0].chapter), es[1..])
  }

  /** After the retractions no deleted entry's chapter is marked. */
  lemma {:induction false} RetractAllClears(p: ProgressMap, es: seq<JournalEntry>)
    ensures forall i :: 0 <= i < |es| ==> !Marked(RetractAll(p, es), es[i].book, es[i].chapter)
    decreases |es|
  {
    if |es| > 0 {
      var q := Retract(p, es[0].book, es[0].chapter);
      RetractAllClears(q, es[1..]);
      RetractAllKeeps(q, es[1..]);
      forall i | 0 <= i < |es| ensures !Marked(RetractAll(p, es), es[i].book, es[i].chapter) {
        if i > 0 {
          assert es[i] == es[1..][i - 1];
        } else if Covers(es[1..], es[0].book, es[0].chapter) {
          var j :| 0 <= j < |es[1..]| && es[1..][j].book == es[0].book && es[1..][j].chapter == es[0].chapter;
        }
      }
    }
  }

  /** Chapters no deleted entry names keep their status. */
  lemma {:induction false} RetractAllKeeps(p: ProgressMap, es: seq<JournalEntry>)
    ensures forall b, c :: !Covers(es, b, c) ==> (Marked(RetractAll(p, es), b, c) <==> Marked(p, b, c))
    decreases |es|
  {
    if |es| > 0 {
      var q := Retract(p, es[0].book, es[0].chapter);
      RetractAllKeeps(q, es[1..]);
      forall b, c | !Covers(es, b, c) ensures Marked(RetractAll(p, es), b, c) <==> Marked(p, b, c) {
        assert es[0].book != b || es[0].chapter != c;
      }
    }
  }

  /** `completionStatus`: for each stored book, the chapters whose flag is truthy. */
  function CompletionStatus(p: ProgressMap): (r: map<string, set<int>>)
    ensures r.Keys == p.Keys
    ensures forall b, c :: b in r ==> (c in r[b] <==> Marked(p, b, c))
  {
    map b | b in p :: set c | c in p[b] && p[b][c]
  }

  /** How many of chapters `1..n` are in `done`: a book's completed count
      never looks past the book's own chapter count. */
  function CountCompleted(done: set<int>, n: int): (r: nat)
    ensures r <= if n > 0 then n else 0
    ensures r == (if n > 0 then n else 0) <==> forall c :: 1 <= c <= n ==> c in done
    decreases n
  {
    if n <= 0 then 0
    else CountCompleted(done, n - 1) + (if n in done then 1 else 0)
  }

  /** The count is the size of the set of completed chapters in range. */
  lemma {:induction false} CountIsCardinality(done: set<int>, n: int)
    ensures CountCompleted(done, n) == |set c | c in done && 1 <= c <= n|
    decreases n
  {
    if n <= 0 {
      assert (set c | c in done && 1 <= c <= n) == {};
    } else {
      CountIsCardinality(done, n - 1);
      var below := set c | c in done && 1 <= c <= n - 1;
      if n in done {
        assert (set c | c in done && 1 <= c <= n) == below + {n};
      } else {
        assert (set c | c in done && 1 <= c <= n) == below;
      }
    }
  }

  /** The count shown beside one book: its truthy chapters within `1..chapters`. */
  function BookCompleted(p: ProgressMap, book: BibleBook): (r: nat)
    ensures r == |set c | 1 <= c <= book.chapters && Marked(p, book.name, c)|
    ensures r <= if book.chapters > 0 then book.chapters else 0
    ensures r == (if book.chapters > 0 then book.chapters else 0) <==>
      forall c :: 1 <= c <= book.chapters ==> Marked(p, book.name, c)
    ensures book.name !in p ==> r == 0
  {
    var status := CompletionStatus(p);
    var done := if book.name in status then status[book.name] else {};
    assert forall c :: c in done <==> Marked(p, book.name, c);
    CountIsCardinality(done, book.chapters);
    assert (set c | c in done && 1 <= c <= book.chapters) == (set c | 1 <= c <= book.chapters && Marked(p, book.name, c));
    CountCompleted(done, book.chapters)
  }

  /** `totalCompletedChapters`: the number of stored chapter keys over all books. */
  method TotalCompleted(p: ProgressMap) returns (n: nat)
    ensures n == KeyCount(p)
  {
    var rest := p;
    n := 0;
    while rest != map[]
      invariant n + KeyCount(rest) == KeyCount(p)
      decreases |rest|
    {
      var b :| b in rest;
      KeyCountRemove(rest, b);
      n := n + |rest[b]|;
      assert (rest - {b}).Keys < rest.Keys;
      rest := rest - {b};
    }
  }

  /** `totalBibleChapters`: the chapter counts of the book table added up. */
  function TotalChapters(books: seq<BibleBook>): (r: int)
    ensures (forall k :: 0 <= k < |books| ==> books[k].chapters >= 1) ==> r >= |books|
    ensures (forall k :: 0 <= k < |books| ==> books[k].chapters >= 0) ==>
      forall k :: 0 <= k < |books| ==> r >= books[k].chapters
    decreases |books|
  {
    if |books| == 0 then 0 else books[0].chapters + TotalChapters(books[1..])
  }

  /** The total over a table split in two is the sum of the two totals. */
  lemma {:induction false} TotalChaptersAppend(a: seq<BibleBook>, b: seq<BibleBook>)
    ensures TotalChapters(a + b) == TotalChapters(a) + TotalChapters(b)
    decreases |a|
  {
    if |a| > 0 {
      TotalChaptersAppend(a[1..], b);
      assert (a + b)[1..] == a[1..] + b;
    } else {
      assert a + b == b;
    }
  }
}
