/** `Array.prototype.filter`, the string order behind `localeCompare` and
    `sort()`, and the stable sort every list view applies after filtering. */
module Lists {

  /** `ys` is `xs` with some items left out and the rest in their original
      order (matched greedily from the front). */
  ghost predicate SubsequenceOf<T>(ys: seq<T>, xs: seq<T>)
    decreases |xs|
  {
    if |ys| == 0 then true
    else if |xs| == 0 then false
    else if ys[0] == xs[0] then SubsequenceOf(ys[1..], xs[1..])
    else SubsequenceOf(ys, xs[1..])
  }

  /** `xs.filter(keep)`: the kept items, in their original order. */
  function Filter<T(!new)>(xs: seq<T>, keep: T -> bool): (r: seq<T>)
    ensures |r| <= |xs|
    ensures forall x :: x in r <==> x in xs && keep(x)
    ensures multiset(r) <= multiset(xs)
  {
    if |xs| == 0 then []
    else
      var rest := Filter(xs[1..], keep);
      assert xs == [xs[0]] + xs[1..];
      (if keep(xs[0]) then [xs[0]] else []) + rest
  }

  /** Every kept item survives as many times as it is stored, and every
      other item not at all. */
  lemma {:induction false} FilterCounts<T(!new)>(xs: seq<T>, keep: T -> bool)
    ensures forall x :: multiset(Filter(xs, keep))[x] == if keep(x) then multiset(xs)[x] else 0
    decreases |xs|
  {
    if |xs| > 0 {
      FilterCounts(xs[1..], keep);
      assert xs == [xs[0]] + xs[1..];
      assert multiset(xs) == multiset{xs[0]} + multiset(xs[1..]);
    }
  }

  /** The kept items keep their relative order. */
  lemma {:induction false} FilterSubsequence<T(!new)>(xs: seq<T>, keep: T -> bool)
    ensures SubsequenceOf(Filter(xs, keep), xs)
    decreases |xs|
  {
    if |xs| > 0 {
      FilterSubsequence(xs[1..], keep);
      var rest := Filter(xs[1..], keep);
      if keep(xs[0]) {
        assert Filter(xs, keep)[1..] == rest;
      } else {
        assert Filter(xs, keep) == rest;
        if |rest| > 0 {
          assert rest[0] in rest && keep(rest[0]);
          assert rest[0] != xs[0];
        }
      }
    }
  }

  /** Every sequence is a subsequence of itself. */
  lemma {:induction false} SubsequenceOfSelf<T>(xs: seq<T>)
    ensures SubsequenceOf(xs, xs)
    decreases |xs|
  {
    if |xs| > 0 {
      SubsequenceOfSelf(xs[1..]);
    }
  }

  /** A sequence with no members is empty. */
  lemma NoMembersEmpty<T>(s: seq<T>)
    requires forall x :: x !in s
    ensures s == []
  {
    if |s| > 0 {
      FirstIsMember(s);
      assert false;
    }
  }

  lemma FirstIsMember<T>(s: seq<T>)
    requires |s| > 0
    ensures s[0] in s
  {
  }

  /** One step of `filter`: the head is kept or dropped, then the rest follows. */
  lemma FilterCons<T(!new)>(x: T, rest: seq<T>, keep: T -> bool)
    ensures Filter([x] + rest, keep) == (if keep(x) then [x] else []) + Filter(rest, keep)
  {
    assert ([x] + rest)[0] == x;
    assert ([x] + rest)[1..] == rest;
  }

  lemma Regroup<T>(h: seq<T>, p: seq<T>, q: seq<T>)
    ensures h + (p + q) == (h + p) + q
  {
  }

  /** Filtering commutes with concatenation, so kept items keep their relative order. */
  lemma {:induction false} FilterConcat<T(!new)>(a: seq<T>, b: seq<T>, keep: T -> bool)
    ensures Filter(a + b, keep) == Filter(a, keep) + Filter(b, keep)
    decreases |a|
  {
    if |a| > 0 {
      FilterConcat(a[1..], b, keep);
      assert a + b == [a[0]] + (a[1..] + b);
      FilterCons(a[0], a[1..] + b, keep);
      assert a == [a[0]] + a[1..];
      FilterCons(a[0], a[1..], keep);
      Regroup(if keep(a[0]) then [a[0]] else [], Filter(a[1..], keep), Filter(b, keep));
    } else {
      assert a + b == b;
    }
  }

  /** A filter that keeps every item returns the sequence unchanged. */
  lemma {:induction false} FilterKeepsAll<T(!new)>(xs: seq<T>, keep: T -> bool)
    requires forall x :: x in xs ==> keep(x)
    ensures Filter(xs, keep) == xs
    decreases |xs|
  {
    if |xs| > 0 {
      FilterKeepsAll(xs[1..], keep);
      assert xs == [xs[0]] + xs[1..];
    }
  }

  /** Lexicographic order on strings, character by character: how
      `localeCompare` orders the zero-padded `YYYY-MM-DD` dates and how the
      default `sort()` orders tags. */
  predicate LexLe(a: string, b: string)
    decreases |a|
  {
    |a| == 0 || (|b| > 0 && (a[0] < b[0] || (a[0] == b[0] && LexLe(a[1..], b[1..]))))
  }

  lemma {:induction false} LexLeTotal(a: string, b: string)
    ensures LexLe(a, b) || LexLe(b, a)
    decreases |a|
  {
    if |a| > 0 && |b| > 0 && a[0] == b[0] {
      LexLeTotal(a[1..], b[1..]);
    }
  }

  lemma {:induction false} LexLeTransitive(a: string, b: string, c: string)
    requires LexLe(a, b) && LexLe(b, c)
    ensures LexLe(a, c)
    decreases |a|
  {
    if |a| > 0 && a[0] == b[0] && b[0] == c[0] {
      LexLeTransitive(a[1..], b[1..], c[1..]);
    }
  }

  lemma {:induction false} LexLeAntisymmetric(a: string, b: string)
    requires LexLe(a, b) && LexLe(b, a)
    ensures a == b
    decreases |a|
  {
    if |a| > 0 {
      LexLeAntisymmetric(a[1..], b[1..]);
      assert a == [a[0]] + a[1..] && b == [b[0]] + b[1..];
    }
  }

  /** The two directions of the date toggle. */
  datatype SortOrder = Asc | Desc

  /** `a` may precede `b` under `order`: the comparator does not put `b` first. */
  predicate InOrder(a: string, b: string, order: SortOrder) {
    match order
    case Asc => LexLe(a, b)
    case Desc => LexLe(b, a)
  }

  lemma InOrderTotal(a: string, b: string, order: SortOrder)
    ensures InOrder(a, b, order) || InOrder(b, a, order)
  {
    LexLeTotal(a, b);
  }

  lemma InOrderTransitive(a: string, b: string, c: string, order: SortOrder)
    requires InOrder(a, b, order) && InOrder(b, c, order)
    ensures InOrder(a, c, order)
  {
    if order == Asc { LexLeTransitive(a, b, c); } else { LexLeTransitive(c, b, a); }
  }

  /** The identity key, for lists of strings ordered or looked up by
      themselves (`sort()` without a comparator, `indexOf`). */
  function Self(t: string): string { t }

  /** Every earlier item may precede every later one. */
  predicate Sorted<T>(s: seq<T>, key: T -> string, order: SortOrder) {
    forall i, j :: 0 <= i < j < |s| ==> InOrder(key(s[i]), key(s[j]), order)
  }

  /** An item that may precede the head of a sorted list may lead it. */
  lemma FrontSorted<T>(s: seq<T>, x: T, key: T -> string, order: SortOrder)
    requires |s| > 0 && Sorted(s, key, order) && InOrder(key(x), key(s[0]), order)
    ensures Sorted([x] + s, key, order)
  {
    forall j | 0 <= j < |s| ensures InOrder(key(x), key(s[j]), order) {
      if j > 0 { InOrderTransitive(key(x), key(s[0]), key(s[j]), order); }
    }
    assert forall j :: 0 < j <= |s| ==> ([x] + s)[j] == s[j - 1];
  }

  /** An item that may precede every item of a sorted list may lead it. */
  lemma ConsSorted<T>(h: T, t: seq<T>, key: T -> string, order: SortOrder)
    requires Sorted(t, key, order) && forall z :: z in t ==> InOrder(key(h), key(z), order)
    ensures Sorted([h] + t, key, order)
  {
    forall i, j | 0 <= i < j < |[h] + t| ensures InOrder(key(([h] + t)[i]), key(([h] + t)[j]), order) {
      assert ([h] + t)[j] == t[j - 1];
      if i > 0 { assert ([h] + t)[i] == t[i - 1]; } else { assert t[j - 1] in t; }
    }
  }

  /** The head of a sorted list may precede the rest of it with `x` added,
      when it may precede `x`. */
  lemma HeadLeads<T>(s: seq<T>, x: T, t: seq<T>, key: T -> string, order: SortOrder)
    requires |s| > 0 && Sorted(s, key, order) && InOrder(key(s[0]), key(x), order)
    requires multiset(t) == multiset(s[1..]) + multiset{x}
    ensures forall z :: z in t ==> InOrder(key(s[0]), key(z), order)
  {
    forall z | z in t ensures InOrder(key(s[0]), key(z), order) {
      assert z in multiset(t);
      if z != x {
        assert z in multiset(s[1..]);
        var j :| 0 <= j < |s[1..]| && s[1..][j] == z;
        assert s[j + 1] == z;
      }
    }
  }

  /** Inserts `x` after every item it does not strictly precede, so items
      with equal keys keep their arrival order (a stable insertion). */
  function Insert<T(!new)>(s: seq<T>, x: T, key: T -> string, order: SortOrder): (r: seq<T>)
    requires Sorted(s, key, order)
    ensures Sorted(r, key, order)
    ensures multiset(r) == multiset(s) + multiset{x}
    ensures |r| == |s| + 1
  {
    if |s| == 0 then [x]
    else if !InOrder(key(s[0]), key(x), order) then
      InOrderTotal(key(s[0]), key(x), order);
      FrontSorted(s, x, key, order);
      assert multiset([x] + s) == multiset(s) + multiset{x};
      [x] + s
    else
      var t := Insert(s[1..], x, key, order);
      HeadLeads(s, x, t, key, order);
      ConsSorted(s[0], t, key, order);
      assert s == [s[0]] + s[1..];
      assert multiset([s[0]] + t) == multiset(s) + multiset{x};
      [s[0]] + t
  }

  /** `[...xs].sort(comparator)` with JavaScript's stable sort: a sorted
      permutation of `xs`, stable by `SortByStable`. */
  function SortBy<T(!new)>(xs: seq<T>, key: T -> string, order: SortOrder): (r: seq<T>)
    ensures Sorted(r, key, order)
    ensures multiset(r) == multiset(xs)
    ensures |r| == |xs|
  {
    if |xs| == 0 then []
    else
      var init := xs[..|xs| - 1];
      assert xs == init + [xs[|xs| - 1]];
      Insert(SortBy(init, key, order), xs[|xs| - 1], key, order)
  }

  /** The items whose key is `k`, in their order. */
  function WithKey<T>(xs: seq<T>, key: T -> string, k: string): seq<T>
    decreases |xs|
  {
    if |xs| == 0 then [] else (if key(xs[0]) == k then [xs[0]] else []) + WithKey(xs[1..], key, k)
  }

  lemma {:induction false} WithKeyConcat<T>(a: seq<T>, b: seq<T>, key: T -> string, k: string)
    ensures WithKey(a + b, key, k) == WithKey(a, key, k) + WithKey(b, key, k)
    decreases |a|
  {
    if |a| > 0 {
      WithKeyConcat(a[1..], b, key, k);
      assert (a + b)[1..] == a[1..] + b;
      assert (a + b)[0] == a[0];
    } else {
      assert a + b == b;
    }
  }

  lemma {:induction false} WithKeyNone<T>(s: seq<T>, key: T -> string, k: string)
    requires forall j :: 0 <= j < |s| ==> key(s[j]) != k
    ensures WithKey(s, key, k) == []
    decreases |s|
  {
    if |s| > 0 {
      WithKeyNone(s[1..], key, k);
    }
  }

  lemma WithKeyCons<T>(h: T, t: seq<T>, key: T -> string, k: string)
    ensures WithKey([h] + t, key, k) == (if key(h) == k then [h] else []) + WithKey(t, key, k)
  {
    assert ([h] + t)[1..] == t;
    assert ([h] + t)[0] == h;
  }

  lemma WithKeySingle<T>(x: T, key: T -> string, k: string)
    ensures WithKey([x], key, k) == if key(x) == k then [x] else []
  {
    WithKeyCons(x, [], key, k);
    assert [x] + [] == [x];
  }

  /** An item that goes in front of a sorted list shares its key with none
      of the list's items. */
  lemma FrontKeyUnique<T>(s: seq<T>, x: T, key: T -> string, order: SortOrder)
    requires |s| > 0 && Sorted(s, key, order) && !InOrder(key(s[0]), key(x), order)
    ensures forall j :: 0 <= j < |s| ==> key(s[j]) != key(x)
  {
    InOrderTotal(key(x), key(x), order);
    forall j | 0 <= j < |s| ensures key(s[j]) != key(x) {
      if j > 0 {
        assert InOrder(key(s[0]), key(s[j]), order);
      }
    }
  }

  /** Inserting puts `x` after every item with the same key: the items of
      each key keep their order, and `x` comes last among its own. */
  lemma {:induction false} InsertStable<T(!new)>(s: seq<T>, x: T, key: T -> string, order: SortOrder, k: string)
    requires Sorted(s, key, order)
    ensures WithKey(Insert(s, x, key, order), key, k) == WithKey(s, key, k) + (if key(x) == k then [x] else [])
    decreases |s|
  {
    if |s| == 0 {
      assert Insert(s, x, key, order) == [x];
      WithKeySingle(x, key, k);
    } else if !InOrder(key(s[0]), key(x), order) {
      InsertFrontStable(s, x, key, order, k);
    } else {
      InsertStable(s[1..], x, key, order, k);
      InsertConsStable(s, x, key, order, k);
    }
  }

  lemma InsertFrontStable<T(!new)>(s: seq<T>, x: T, key: T -> string, order: SortOrder, k: string)
    requires |s| > 0 && Sorted(s, key, order) && !InOrder(key(s[0]), key(x), order)
    ensures WithKey(Insert(s, x, key, order), key, k) == WithKey(s, key, k) + (if key(x) == k then [x] else [])
  {
    assert Insert(s, x, key, order) == [x] + s;
    WithKeyCons(x, s, key, k);
    if key(x) == k {
      FrontKeyUnique(s, x, key, order);
      WithKeyNone(s, key, k);
    }
  }

  lemma InsertConsStable<T(!new)>(s: seq<T>, x: T, key: T -> string, order: SortOrder, k: string)
    requires |s| > 0 && Sorted(s, key, order) && InOrder(key(s[0]), key(x), order)
    requires WithKey(Insert(s[1..], x, key, order), key, k) == WithKey(s[1..], key, k) + (if key(x) == k then [x] else [])
    ensures WithKey(Insert(s, x, key, order), key, k) == WithKey(s, key, k) + (if key(x) == k then [x] else [])
  {
    var t := Insert(s[1..], x, key, order);
    InsertConsUnfold(s, x, key, order);
    WithKeyCons(s[0], t, key, k);
    WithKeyCons(s[0], s[1..], key, k);
    assert s == [s[0]] + s[1..];
  }

  lemma InsertConsUnfold<T(!new)>(s: seq<T>, x: T, key: T -> string, order: SortOrder)
    requires |s| > 0 && Sorted(s, key, order) && InOrder(key(s[0]), key(x), order)
    ensures Insert(s, x, key, order) == [s[0]] + Insert(s[1..], x, key, order)
  {
  }

  /** The sort is stable, as `Array.prototype.sort` has been required to be
      since ECMAScript 2019: items with equal keys keep their input order. */
  lemma {:induction false} SortByStable<T(!new)>(xs: seq<T>, key: T -> string, order: SortOrder, k: string)
    ensures WithKey(SortBy(xs, key, order), key, k) == WithKey(xs, key, k)
    decreases |xs|
  {
    if |xs| > 0 {
      SortByStable(xs[..|xs| - 1], key, order, k);
      SortByStep(xs, key, order, k);
    }
  }

  lemma SortByStep<T(!new)>(xs: seq<T>, key: T -> string, order: SortOrder, k: string)
    requires |xs| > 0
    requires WithKey(SortBy(xs[..|xs| - 1], key, order), key, k) == WithKey(xs[..|xs| - 1], key, k)
    ensures WithKey(SortBy(xs, key, order), key, k) == WithKey(xs, key, k)
  {
    var init, last := xs[..|xs| - 1], xs[|xs| - 1];
    SortByUnfold(xs, key, order);
    InsertStable(SortBy(init, key, order), last, key, order, k);
    WithKeySnoc(xs, key, k);
  }

  lemma SortByUnfold<T(!new)>(xs: seq<T>, key: T -> string, order: SortOrder)
    requires |xs| > 0
    ensures SortBy(xs, key, order) == Insert(SortBy(xs[..|xs| - 1], key, order), xs[|xs| - 1], key, order)
  {
  }

  lemma WithKeySnoc<T>(xs: seq<T>, key: T -> string, k: string)
    requires |xs| > 0
    ensures WithKey(xs, key, k) == WithKey(xs[..|xs| - 1], key, k) + (if key(xs[|xs| - 1]) == k then [xs[|xs| - 1]] else [])
  {
    var init, last := xs[..|xs| - 1], xs[|xs| - 1];
    assert xs == init + [last];
    WithKeyConcat(init, [last], key, k);
    WithKeySingle(last, key, k);
  }

  /** The derived list every page shows: the stored items that pass the
      filters, sorted by date. The stored sequence itself is never changed. */
  function View<T(!new)>(xs: seq<T>, keep: T -> bool, key: T -> string, order: SortOrder): (r: seq<T>)
    ensures Sorted(r, key, order)
    ensures multiset(r) == multiset(Filter(xs, keep))
    ensures forall x :: x in r <==> x in xs && keep(x)
    ensures forall x :: multiset(r)[x] == if keep(x) then multiset(xs)[x] else 0
  {
    var r := SortBy(Filter(xs, keep), key, order);
    FilterCounts(xs, keep);
    assert forall x :: x in r <==> x in multiset(Filter(xs, keep));
    r
  }
}
