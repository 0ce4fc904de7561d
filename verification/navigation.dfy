/** The Bible reader's chapter navigation: the static book tables, the
    previous and next arrows, the book and chapter selects, and the effect
    that fits the chapter count to a newly chosen book. Fetching and
    showing the verses are left out. */
module Navigation {
  import opened Wrappers
  import opened Lists
  import opened Keyed
  import opened ShareForm

  /** Eleven consecutive books of the tables: full names, short names and
      chapter counts, position by position. */
  datatype TableBlock = TableBlock(names: seq<string>, shorts: seq<string>, maxes: seq<int>)

  const Block1 := TableBlock(
    ["創世記", "出埃及記", "利未記", "民數記", "申命記", "約書亞記", "士師記", "路得記", "撒母耳記上", "撒母耳記下", "列王紀上"],
    ["創", "出", "利", "民", "申", "書", "士", "得", "撒上", "撒下", "王上"],
    [50, 40, 27, 36, 34, 24, 21, 4, 31, 24, 22])

  const Block2 := TableBlock(
    ["列王紀下", "歷代志上", "歷代志下", "以斯拉記", "尼希米記", "以斯帖記", "約伯記", "詩篇", "箴言", "傳道書", "雅歌"],
    ["王下", "代上", "代下", "拉", "尼", "斯", "伯", "詩", "箴", "傳", "歌"],
    [25, 29, 36, 10, 13, 10, 42, 150, 31, 12, 8])

  const Block3 := TableBlock(
    ["以賽亞書", "耶利米書", "耶利米哀歌", "以西結書", "但以理書", "何西阿書", "約珥書", "阿摩司書", "俄巴底亞書", "約拿書", "彌迦書"],
    ["賽", "耶", "哀", "結", "但", "何", "珥", "摩", "俄", "拿", "彌"],
    [66, 52, 5, 48, 12, 14, 3, 9, 1, 4, 7])

  const Block4 := TableBlock(
    ["那鴻書", "哈巴谷書", "西番雅書", "哈該書", "撒迦利亞書", "瑪拉基書", "馬太福音", "馬可福音", "路加福音", "約翰福音", "使徒行傳"],
    ["鴻", "哈", "番", "該", "亞", "瑪", "太", "可", "路", "約", "徒"],
    [3, 3, 3, 2, 14, 4, 28, 16, 24, 21, 28])

  const Block5 := TableBlock(
    ["羅馬書", "哥林多前書", "哥林多後書", "加拉太書", "以弗所書", "腓立比書", "歌羅西書", "帖撒羅尼迦前書", "帖撒羅尼迦後書", "提摩太前書", "提摩太後書"],
    ["羅", "林前", "林後", "加", "弗", "腓", "西", "帖前", "帖後", "提前", "提後"],
    [16, 16, 13, 6, 6, 4, 4, 5, 3, 6, 4])

  const Block6 := TableBlock(
    ["提多書", "腓利門書", "希伯來書", "雅各書", "彼得前書", "彼得後書", "約翰一書", "約翰二書", "約翰三書", "猶大書", "啟示錄"],
    ["多", "門", "來", "雅", "彼前", "彼後", "約一", "約二", "約三", "猶", "啟"],
    [3, 1, 13, 5, 5, 3, 5, 1, 1, 1, 22])

  /** `bibleBooksOrder`: the keys of `fullNameToShortName`, in order. */
  const BookOrder: seq<string> := Block1.names + Block2.names + Block3.names + Block4.names + Block5.names + Block6.names

  /** The values of `fullNameToShortName`, aligned with `BookOrder`. */
  const ShortNames: seq<string> := Block1.shorts + Block2.shorts + Block3.shorts + Block4.shorts + Block5.shorts + Block6.shorts

  /** The values of `maxChapters`, whose keys are the same books in the same order. */
  const MaxChapterCounts: seq<int> := Block1.maxes + Block2.maxes + Block3.maxes + Block4.maxes + Block5.maxes + Block6.maxes

  /** `bibleBooksOrder.indexOf(name)`: the first position of `name`, or -1. */
  function IndexOf(name: string): (r: int)
    ensures -1 <= r < |BookOrder|
    ensures r >= 0 <==> name in BookOrder
    ensures r >= 0 ==> BookOrder[r] == name
  {
    var r := FindIndex(BookOrder, name, Self);
    assert name in BookOrder ==> HasId(BookOrder, name, Self) by {
      if name in BookOrder {
        var k :| 0 <= k < |BookOrder| && BookOrder[k] == name;
        assert Self(BookOrder[k]) == name;
      }
    }
    r
  }

  /** `fullNameToShortName[name]`: undefined (`None`) off the table. */
  function ShortNameOf(name: string): (r: Option<string>)
    ensures r.Some? <==> name in BookOrder
  {
    TableSizes();
    var i := IndexOf(name);
    if i >= 0 then Some(ShortNames[i]) else None
  }

  /** `maxChapters[name]`: undefined (`None`) off the table. */
  function MaxChaptersOf(name: string): (r: Option<int>)
    ensures r.Some? <==> name in BookOrder
    ensures r.Some? ==> r.value >= 1
  {
    TableSizes();
    CountsPositive();
    var i := IndexOf(name);
    if i >= 0 then Some(MaxChapterCounts[i]) else None
  }

  /** `maxChapters[book] || 50`: a missing or zero count reads as 50. */
  function ChaptersFor(name: string): (r: int)
    ensures r >= 1
    ensures name !in BookOrder ==> r == 50
  {
    match MaxChaptersOf(name)
    case Some(n) => if n != 0 then n else 50
    case None => 50
  }

  /** The page's `book`, `chap` and `chapters` state. */
  datatype Nav = Nav(book: string, chap: int, chapters: int)

  /** The initial `useState` values. */
  const Start := Nav("創世記", 1, 50)

  /** The effect keyed on `book`: the count follows the book, and a chapter
      beyond it falls back to 1. */
  function Settle(s: Nav): (r: Nav)
    ensures r.book == s.book && r.chapters == ChaptersFor(s.book)
    ensures r.chap == s.chap || r.chap == 1
    ensures r.chap <= r.chapters
    ensures s.chap <= r.chapters ==> r.chap == s.chap
  {
    var max := ChaptersFor(s.book);
    Nav(s.book, if s.chap > max then 1 else s.chap, max)
  }

  /** `setBook(book); setChap(chap)`, followed by the effect when the book
      actually changed. */
  function MoveTo(s: Nav, book: string, chap: int): (r: Nav)
    ensures r.book == book
    ensures r.chap == chap || r.chap == 1
    ensures book != s.book ==> r.chapters == ChaptersFor(book)
    ensures 1 <= chap <= ChaptersFor(book) ==> r.chap == chap
  {
    if book == s.book then s.(chap := chap) else Settle(Nav(book, chap, s.chapters))
  }

  /** `nextChapter`. */
  function Next(s: Nav): (r: Nav)
    ensures r == s || (r.book == s.book && r.chap == s.chap + 1) ||
      (IndexOf(s.book) < |BookOrder| - 1 && r.book == BookOrder[IndexOf(s.book) + 1] && r.chap == 1)
  {
    var idx := IndexOf(s.book);
    if s.chap < s.chapters then s.(chap := s.chap + 1)
    else if idx < |BookOrder| - 1 then MoveTo(s, BookOrder[idx + 1], 1)
    else s
  }

  /** `prevChapter`: the previous book opens at its last chapter. */
  function Prev(s: Nav): (r: Nav)
    ensures r == s || (r.book == s.book && r.chap == s.chap - 1) ||
      (IndexOf(s.book) > 0 && r.book == BookOrder[IndexOf(s.book) - 1] && MaxChaptersOf(r.book) == Some(r.chap))
  {
    var idx := IndexOf(s.book);
    if s.chap > 1 then s.(chap := s.chap - 1)
    else if idx > 0 then
      var prev := BookOrder[idx - 1];
      var max := MaxChaptersOf(prev);
      assert max.Some?;
      MoveToLast(s, prev);
      MoveTo(s, prev, max.value)
    else s
  }

  /** Moving to a listed book's last chapter lands there. */
  lemma MoveToLast(s: Nav, book: string)
    requires book in BookOrder
    ensures MaxChaptersOf(book).Some?
    ensures MoveTo(s, book, MaxChaptersOf(book).value).book == book
    ensures MaxChaptersOf(book) == Some(MoveTo(s, book, MaxChaptersOf(book).value).chap)
  {
    var m := MaxChaptersOf(book).value;
    assert ChaptersFor(book) == m;
  }

  /** `handleBookSelect`: only a name with a (non-empty) short name is taken. */
  function SelectBook(s: Nav, name: string): (r: Nav)
    ensures r == s || (name in BookOrder && r.book == name && r.chap == 1)
  {
    var short := ShortNameOf(name);
    if short.Some? && short.value != "" then MoveTo(s, name, 1) else s
  }

  /** The chapter select's `onChange`. */
  function SelectChapter(s: Nav, c: int): (r: Nav)
    ensures r.book == s.book && r.chapters == s.chapters && r.chap == c
  {
    s.(chap := c)
  }

  /** The left arrow's `disabled`: the first chapter of the first book. */
  predicate PrevDisabled(s: Nav) {
    s.book == BookOrder[0] && s.chap == 1
  }

  /** The right arrow's `disabled`: the last chapter of the last book. */
  predicate NextDisabled(s: Nav) {
    s.book == BookOrder[|BookOrder| - 1] && MaxChaptersOf(BookOrder[|BookOrder| - 1]) == Some(s.chap)
  }

  /** The navigation invariant: a listed book, its chapter count, and a
      chapter within that count. */
  predicate Inv(s: Nav) {
    s.book in BookOrder && s.chapters == ChaptersFor(s.book) && 1 <= s.chap <= s.chapters
  }

  // ---- The tables ----

  /** Position `i`'s name differs from every name at `j` and after. */
  predicate FreshAt(s: seq<string>, i: nat, j: nat)
    requires i < |s|
    decreases |s| - j
  {
    j >= |s| || (s[i] != s[j] && FreshAt(s, i, j + 1))
  }

  /** Every name from position `i` on differs from all later names. */
  predicate DistinctFrom(s: seq<string>, i: nat)
    decreases |s| - i
  {
    i >= |s| || (FreshAt(s, i, i + 1) && DistinctFrom(s, i + 1))
  }

  lemma {:induction false} FreshAtAll(s: seq<string>, i: nat, j: nat)
    requires i < |s| && FreshAt(s, i, j)
    ensures forall k :: j <= k < |s| ==> s[i] != s[k]
    decreases |s| - j
  {
    if j < |s| {
      FreshAtAll(s, i, j + 1);
    }
  }

  lemma {:induction false} DistinctFromAll(s: seq<string>, i: nat)
    requires DistinctFrom(s, i)
    ensures forall a, b :: i <= a < b < |s| ==> s[a] != s[b]
    decreases |s| - i
  {
    if i < |s| {
      FreshAtAll(s, i, i + 1);
      DistinctFromAll(s, i + 1);
    }
  }

  /** No name of `a` equals a name of `b`, position by position. */
  predicate Apart(a: seq<string>, b: seq<string>) {
    forall i, j :: 0 <= i < |a| && 0 <= j < |b| ==> a[i] != b[j]
  }

  lemma ApartIn(a: seq<string>, b: seq<string>)
    requires Apart(a, b)
    ensures forall x :: x in a ==> x !in b
  {
    forall x | x in a ensures x !in b {
      var i :| 0 <= i < |a| && a[i] == x;
      assert forall j :: 0 <= j < |b| ==> b[j] != x;
    }
  }

  /** Two lists without repeats and without a common name join into one
      without repeats. */
  lemma DistinctJoin(a: seq<string>, b: seq<string>)
    requires UniqueIds(a, Self) && UniqueIds(b, Self)
    requires forall x :: x in a ==> x !in b
    ensures UniqueIds(a + b, Self)
  {
    var ab := a + b;
    forall i, j | 0 <= i < j < |ab| ensures Self(ab[i]) != Self(ab[j]) {
      if j < |a| {
        assert ab[i] == a[i] && ab[j] == a[j];
      } else if i >= |a| {
        assert ab[i] == b[i - |a|] && ab[j] == b[j - |a|];
      } else {
        assert ab[i] == a[i] && ab[j] == b[j - |a|];
        assert ab[i] in a;
      }
    }
  }

  lemma BlockUnique(s: seq<string>)
    requires DistinctFrom(s, 0)
    ensures UniqueIds(s, Self)
  {
    DistinctFromAll(s, 0);
  }

  lemma Block1Distinct() ensures DistinctFrom(Block1.names, 0) {}
  lemma Block2Distinct() ensures DistinctFrom(Block2.names, 0) {}
  lemma Block3Distinct() ensures DistinctFrom(Block3.names, 0) {}
  lemma Block4Distinct() ensures DistinctFrom(Block4.names, 0) {}
  lemma Block5Distinct() ensures DistinctFrom(Block5.names, 0) {}
  lemma Block6Distinct() ensures DistinctFrom(Block6.names, 0) {}
  lemma Blocks12Disjoint() ensures Apart(Block1.names, Block2.names) {}
  lemma Blocks13Disjoint() ensures Apart(Block1.names, Block3.names) {}
  lemma Blocks14Disjoint() ensures Apart(Block1.names, Block4.names) {}
  lemma Blocks15Disjoint() ensures Apart(Block1.names, Block5.names) {}
  lemma Blocks16Disjoint() ensures Apart(Block1.names, Block6.names) {}
  lemma Blocks23Disjoint() ensures Apart(Block2.names, Block3.names) {}
  lemma Blocks24Disjoint() ensures Apart(Block2.names, Block4.names) {}
  lemma Blocks25Disjoint() ensures Apart(Block2.names, Block5.names) {}
  lemma Blocks26Disjoint() ensures Apart(Block2.names, Block6.names) {}
  lemma Blocks34Disjoint() ensures Apart(Block3.names, Block4.names) {}
  lemma Blocks35Disjoint() ensures Apart(Block3.names, Block5.names) {}
  lemma Blocks36Disjoint() ensures Apart(Block3.names, Block6.names) {}
  lemma Blocks45Disjoint() ensures Apart(Block4.names, Block5.names) {}
  lemma Blocks46Disjoint() ensures Apart(Block4.names, Block6.names) {}
  lemma Blocks56Disjoint() ensures Apart(Block5.names, Block6.names) {}

  lemma TableSizes()
    ensures |BookOrder| == 66 && |ShortNames| == 66 && |MaxChapterCounts| == 66
  {
  }

  lemma ShortNamesNonEmpty()
    ensures forall k :: 0 <= k < |ShortNames| ==> ShortNames[k] != ""
  {
  }

  lemma CountsPositive()
    ensures forall k :: 0 <= k < |MaxChapterCounts| ==> MaxChapterCounts[k] >= 1
  {
  }

  /** Every short name is non-empty and every chapter count positive. */
  lemma TableEntries()
    ensures forall k :: 0 <= k < |ShortNames| ==> ShortNames[k] != ""
    ensures forall k :: 0 <= k < |MaxChapterCounts| ==> MaxChapterCounts[k] >= 1
  {
    ShortNamesNonEmpty();
    CountsPositive();
  }

  lemma BlocksUnique()
    ensures UniqueIds(Block1.names, Self) && UniqueIds(Block2.names, Self) && UniqueIds(Block3.names, Self)
    ensures UniqueIds(Block4.names, Self) && UniqueIds(Block5.names, Self) && UniqueIds(Block6.names, Self)
  {
    Block1Distinct(); BlockUnique(Block1.names);
    Block2Distinct(); BlockUnique(Block2.names);
    Block3Distinct(); BlockUnique(Block3.names);
    Block4Distinct(); BlockUnique(Block4.names);
    Block5Distinct(); BlockUnique(Block5.names);
    Block6Distinct(); BlockUnique(Block6.names);
  }

  lemma FirstThreeUnique()
    ensures UniqueIds(Block1.names + Block2.names + Block3.names, Self)
  {
    BlocksUnique();
    Blocks12Disjoint();
    ApartIn(Block1.names, Block2.names);
    DistinctJoin(Block1.names, Block2.names);
    Blocks13Disjoint();
    ApartIn(Block1.names, Block3.names);
    Blocks23Disjoint();
    ApartIn(Block2.names, Block3.names);
    DistinctJoin(Block1.names + Block2.names, Block3.names);
  }

  lemma FirstFourUnique()
    ensures UniqueIds(Block1.names + Block2.names + Block3.names + Block4.names, Self)
  {
    BlocksUnique();
    FirstThreeUnique();
    Blocks14Disjoint();
    ApartIn(Block1.names, Block4.names);
    Blocks24Disjoint();
    ApartIn(Block2.names, Block4.names);
    Blocks34Disjoint();
    ApartIn(Block3.names, Block4.names);
    DistinctJoin(Block1.names + Block2.names + Block3.names, Block4.names);
  }

  lemma FirstFiveUnique()
    ensures UniqueIds(Block1.names + Block2.names + Block3.names + Block4.names + Block5.names, Self)
  {
    BlocksUnique();
    FirstFourUnique();
    Blocks15Disjoint();
    ApartIn(Block1.names, Block5.names);
    Blocks25Disjoint();
    ApartIn(Block2.names, Block5.names);
    Blocks35Disjoint();
    ApartIn(Block3.names, Block5.names);
    Blocks45Disjoint();
    ApartIn(Block4.names, Block5.names);
    DistinctJoin(Block1.names + Block2.names + Block3.names + Block4.names, Block5.names);
  }

  /** No book is listed twice. */
  lemma OrderDistinct()
    ensures UniqueIds(BookOrder, Self)
  {
    BlocksUnique();
    FirstFiveUnique();
    Blocks16Disjoint();
    ApartIn(Block1.names, Block6.names);
    Blocks26Disjoint();
    ApartIn(Block2.names, Block6.names);
    Blocks36Disjoint();
    ApartIn(Block3.names, Block6.names);
    Blocks46Disjoint();
    ApartIn(Block4.names, Block6.names);
    Blocks56Disjoint();
    ApartIn(Block5.names, Block6.names);
    DistinctJoin(Block1.names + Block2.names + Block3.names + Block4.names + Block5.names, Block6.names);
  }

  // ---- Navigation ----

  /** Position `k` is where `indexOf` finds the book listed there, and its
      count is the one `maxChapters` gives it. */
  lemma PositionOf(k: int)
    requires 0 <= k < |BookOrder|
    ensures IndexOf(BookOrder[k]) == k
    ensures MaxChaptersOf(BookOrder[k]) == Some(MaxChapterCounts[k])
    ensures ChaptersFor(BookOrder[k]) == MaxChapterCounts[k] >= 1
  {
    OrderDistinct();
    TableSizes();
    TableEntries();
    UniquePosition(BookOrder, k, Self);
  }

  /** The page opens on chapter 1 of the first book, and the mount-time run
      of the effect leaves that state as it is. */
  lemma StartIsSettled()
    ensures Start.book == BookOrder[0]
    ensures Inv(Start) && Settle(Start) == Start
  {
    PositionOf(0);
  }

  /** The effect, run for a listed book and a positive chapter, restores the
      invariant: the count is the book's own, and the chapter is kept when
      it fits and reset to 1 when it does not. */
  lemma SettleFits(s: Nav)
    requires s.book in BookOrder && s.chap >= 1
    ensures Inv(Settle(s))
    ensures Settle(s).chapters == MaxChapterCounts[IndexOf(s.book)]
    ensures Settle(s).chap == if s.chap <= Settle(s).chapters then s.chap else 1
  {
    PositionOf(IndexOf(s.book));
  }

  /** An unlisted book reads as 50 chapters. */
  lemma UnlistedBookHasFifty(name: string)
    requires name !in BookOrder
    ensures ChaptersFor(name) == 50 && MaxChaptersOf(name).None?
  {
  }

  /** Choosing a book takes exactly the listed names: a listed name opens at
      chapter 1 with its own count, anything else changes nothing. */
  lemma SelectBookAcceptsListed(s: Nav, name: string)
    ensures name !in BookOrder ==> SelectBook(s, name) == s
    ensures Inv(s) && name in BookOrder ==>
      SelectBook(s, name) == Nav(name, 1, ChaptersFor(name)) && Inv(SelectBook(s, name))
  {
    if name in BookOrder {
      var k := IndexOf(name);
      PositionOf(k);
      TableEntries();
      assert ShortNameOf(name) == Some(ShortNames[k]);
    }
  }

  /** A chapter the select offers keeps the invariant. */
  lemma SelectChapterKeepsInv(s: Nav, c: int)
    requires Inv(s) && c in ChapterOptions(s.chapters)
    ensures Inv(SelectChapter(s, c))
  {
    OfferedChapters(s.chapters, c);
  }

  /** The right arrow: the next chapter, or chapter 1 of the next book at a
      book's end, or nothing at the very end. */
  lemma NextCases(s: Nav)
    requires Inv(s)
    ensures Inv(Next(s))
    ensures s.chap < s.chapters ==> Next(s) == s.(chap := s.chap + 1)
    ensures s.chap == s.chapters && IndexOf(s.book) < |BookOrder| - 1 ==>
      Next(s) == Nav(BookOrder[IndexOf(s.book) + 1], 1, MaxChapterCounts[IndexOf(s.book) + 1])
    ensures s.chap == s.chapters && IndexOf(s.book) == |BookOrder| - 1 ==> Next(s) == s
  {
    if s.chap < s.chapters {
      NextWithinBook(s);
    } else if IndexOf(s.book) < |BookOrder| - 1 {
      NextAcrossBooks(s);
    }
  }

  lemma NextWithinBook(s: Nav)
    requires Inv(s) && s.chap < s.chapters
    ensures Next(s) == s.(chap := s.chap + 1) && Inv(Next(s))
  {
  }

  lemma NextAcrossBooks(s: Nav)
    requires Inv(s) && s.chap == s.chapters && IndexOf(s.book) < |BookOrder| - 1
    ensures Next(s) == Nav(BookOrder[IndexOf(s.book) + 1], 1, MaxChapterCounts[IndexOf(s.book) + 1])
    ensures Inv(Next(s)) && Next(s).book != s.book
  {
    var k := IndexOf(s.book) + 1;
    PositionOf(k);
    assert BookOrder[k] != s.book;
    var r := MoveTo(s, BookOrder[k], 1);
    assert r == Nav(BookOrder[k], 1, MaxChapterCounts[k]);
  }

  /** The left arrow: the previous chapter, or the last chapter of the
      previous book at a book's start, or nothing at the very start. */
  lemma PrevCases(s: Nav)
    requires Inv(s)
    ensures Inv(Prev(s))
    ensures s.chap > 1 ==> Prev(s) == s.(chap := s.chap - 1)
    ensures s.chap == 1 && IndexOf(s.book) > 0 ==>
      var k := IndexOf(s.book) - 1;
      Prev(s) == Nav(BookOrder[k], MaxChapterCounts[k], MaxChapterCounts[k])
    ensures s.chap == 1 && IndexOf(s.book) == 0 ==> Prev(s) == s
  {
    if s.chap > 1 {
      PrevWithinBook(s);
    } else if IndexOf(s.book) > 0 {
      PrevAcrossBooks(s);
    }
  }

  lemma PrevWithinBook(s: Nav)
    requires Inv(s) && s.chap > 1
    ensures Prev(s) == s.(chap := s.chap - 1) && Inv(Prev(s))
  {
  }

  lemma PrevAcrossBooks(s: Nav)
    requires Inv(s) && s.chap == 1 && IndexOf(s.book) > 0
    ensures var k := IndexOf(s.book) - 1;
      Prev(s) == Nav(BookOrder[k], MaxChapterCounts[k], MaxChapterCounts[k])
    ensures Inv(Prev(s)) && Prev(s).book != s.book
  {
    var k := IndexOf(s.book) - 1;
    PositionOf(k);
    assert BookOrder[k] != s.book;
    var r := MoveTo(s, BookOrder[k], MaxChapterCounts[k]);
    assert r == Nav(BookOrder[k], MaxChapterCounts[k], MaxChapterCounts[k]);
  }

  /** The right arrow is disabled exactly where it would do nothing. */
  lemma NextDisabledIffStuck(s: Nav)
    requires Inv(s)
    ensures NextDisabled(s) <==> Next(s) == s
  {
    if NextDisabled(s) {
      DisabledNextStays(s);
    } else {
      EnabledNextMoves(s);
    }
  }

  lemma DisabledNextStays(s: Nav)
    requires Inv(s) && NextDisabled(s)
    ensures Next(s) == s
  {
    PositionOf(|BookOrder| - 1);
  }

  lemma EnabledNextMoves(s: Nav)
    requires Inv(s) && !NextDisabled(s)
    ensures Next(s) != s
  {
    if s.chap < s.chapters {
      NextWithinBook(s);
    } else {
      var last := |BookOrder| - 1;
      assert IndexOf(s.book) != last by {
        PositionOf(IndexOf(s.book));
        PositionOf(last);
      }
      NextAcrossBooks(s);
    }
  }

  /** The left arrow is disabled exactly where it would do nothing. */
  lemma PrevDisabledIffStuck(s: Nav)
    requires Inv(s)
    ensures PrevDisabled(s) <==> Prev(s) == s
  {
    if PrevDisabled(s) {
      PositionOf(0);
    } else {
      EnabledPrevMoves(s);
    }
  }

  lemma EnabledPrevMoves(s: Nav)
    requires Inv(s) && !PrevDisabled(s)
    ensures Prev(s) != s
  {
    if s.chap > 1 {
      PrevWithinBook(s);
    } else {
      assert IndexOf(s.book) != 0 by {
        PositionOf(0);
      }
      PrevAcrossBooks(s);
    }
  }

  /** Away from the very end, the left arrow undoes the right arrow. */
  lemma PrevAfterNext(s: Nav)
    requires Inv(s) && !NextDisabled(s)
    ensures Prev(Next(s)) == s
  {
    var idx := IndexOf(s.book);
    PositionOf(idx);
    NextDisabledIffStuck(s);
    NextCases(s);
    var t := Next(s);
    if s.chap < s.chapters {
      PrevCases(t);
    } else {
      PositionOf(idx + 1);
      assert t == Nav(BookOrder[idx + 1], 1, MaxChapterCounts[idx + 1]);
      assert IndexOf(t.book) == idx + 1;
      PrevCases(t);
    }
  }

  /** Away from the very start, the right arrow undoes the left arrow. */
  lemma NextAfterPrev(s: Nav)
    requires Inv(s) && !PrevDisabled(s)
    ensures Next(Prev(s)) == s
  {
    var idx := IndexOf(s.book);
    PositionOf(idx);
    PrevDisabledIffStuck(s);
    PrevCases(s);
    NextCases(Prev(s));
    if s.chap == 1 {
      PositionOf(idx - 1);
    }
  }

  /** The chapters of the first `k` books. */
  function ChaptersBefore(k: nat): int
    requires k <= |MaxChapterCounts|
  {
    if k == 0 then 0 else ChaptersBefore(k - 1) + MaxChapterCounts[k - 1]
  }

  /** A state's place in a reading of the whole Bible, counting from 1. */
  function Rank(s: Nav): int
    requires s.book in BookOrder
  {
    TableSizes();
    ChaptersBefore(IndexOf(s.book)) + s.chap
  }

  /** The right arrow moves exactly one chapter forward in reading order. */
  lemma NextAdvancesOne(s: Nav)
    requires Inv(s) && !NextDisabled(s)
    ensures Inv(Next(s)) && Rank(Next(s)) == Rank(s) + 1
  {
    NextDisabledIffStuck(s);
    if s.chap < s.chapters {
      NextRankWithin(s);
    } else {
      NextRankAcross(s);
    }
  }

  lemma NextRankWithin(s: Nav)
    requires Inv(s) && s.chap < s.chapters
    ensures Inv(Next(s)) && Rank(Next(s)) == Rank(s) + 1
  {
    NextWithinBook(s);
  }

  lemma NextRankAcross(s: Nav)
    requires Inv(s) && s.chap == s.chapters && IndexOf(s.book) < |BookOrder| - 1
    ensures Inv(Next(s)) && Rank(Next(s)) == Rank(s) + 1
  {
    var idx := IndexOf(s.book);
    PositionOf(idx);
    NextAcrossBooks(s);
    PositionOf(idx + 1);
  }

  /** The left arrow moves exactly one chapter back in reading order. */
  lemma PrevRetreatsOne(s: Nav)
    requires Inv(s) && !PrevDisabled(s)
    ensures Inv(Prev(s)) && Rank(Prev(s)) == Rank(s) - 1
  {
    PrevDisabledIffStuck(s);
    if s.chap > 1 {
      PrevRankWithin(s);
    } else {
      PrevRankAcross(s);
    }
  }

  lemma PrevRankWithin(s: Nav)
    requires Inv(s) && s.chap > 1
    ensures Inv(Prev(s)) && Rank(Prev(s)) == Rank(s) - 1
  {
    PrevWithinBook(s);
  }

  lemma PrevRankAcross(s: Nav)
    requires Inv(s) && s.chap == 1 && IndexOf(s.book) > 0
    ensures Inv(Prev(s)) && Rank(Prev(s)) == Rank(s) - 1
  {
    var idx := IndexOf(s.book);
    PositionOf(idx);
    PrevAcrossBooks(s);
    PositionOf(idx - 1);
  }
}
