/** The keyed-collection controller repeated on the list pages: lookup by
    id, the save policies (replace in place, otherwise append or prepend),
    and batch removal by a set of ids. Items are generic; `idOf` reads the
    `id` field. */
module Keyed {
  import opened Lists

  predicate HasId<T>(xs: seq<T>, id: string, idOf: T -> string) {
    exists i :: 0 <= i < |xs| && idOf(xs[i]) == id
  }

  /** No id occurs twice: the invariant every save keeps. */
  predicate UniqueIds<T>(xs: seq<T>, idOf: T -> string) {
    forall i, j :: 0 <= i < j < |xs| ==> idOf(xs[i]) != idOf(xs[j])
  }

  /** `xs.findIndex(item => item.id === id)`: the first position holding `id`, or -1. */
  function FindIndex<T>(xs: seq<T>, id: string, idOf: T -> string): (r: int)
    ensures -1 <= r < |xs|
    ensures r == -1 <==> !HasId(xs, id, idOf)
    ensures r >= 0 ==> idOf(xs[r]) == id && forall k :: 0 <= k < r ==> idOf(xs[k]) != id
    decreases |xs|
  {
    if |xs| == 0 then -1
    else if idOf(xs[0]) == id then 0
    else
      var k := FindIndex(xs[1..], id, idOf);
      assert forall i :: 0 < i < |xs| ==> xs[i] == xs[1..][i - 1];
      if k == -1 then -1 else k + 1
  }

  /** With unique ids, the position holding `id` is the only one. */
  lemma UniquePosition<T>(xs: seq<T>, i: int, idOf: T -> string)
    requires UniqueIds(xs, idOf) && 0 <= i < |xs|
    ensures FindIndex(xs, idOf(xs[i]), idOf) == i
  {
  }

  /** `xs.map(i => i.id === x.id ? x : i)`: every item carrying `x`'s id becomes `x`. */
  function ReplaceMatching<T>(xs: seq<T>, x: T, idOf: T -> string): (r: seq<T>)
    ensures |r| == |xs|
    ensures forall i :: 0 <= i < |xs| ==> r[i] == (if idOf(xs[i]) == idOf(x) then x else xs[i])
  {
    seq(|xs|, i requires 0 <= i < |xs| => if idOf(xs[i]) == idOf(x) then x else xs[i])
  }

  /** `xs.map(item => item.id === id ? f(item) : item)`: the per-item
      handlers (like, comment) rewrite every item carrying `id`. */
  function UpdateWhere<T>(xs: seq<T>, id: string, idOf: T -> string, f: T -> T): (r: seq<T>)
    ensures |r| == |xs|
    ensures forall i :: 0 <= i < |xs| && idOf(xs[i]) != id ==> r[i] == xs[i]
    ensures forall i :: 0 <= i < |xs| && idOf(xs[i]) == id ==> r[i] == f(xs[i])
  {
    seq(|xs|, i requires 0 <= i < |xs| => if idOf(xs[i]) == id then f(xs[i]) else xs[i])
  }

  /** Two rewrites of the same id compose into one. */
  lemma UpdateWhereCompose<T>(xs: seq<T>, id: string, idOf: T -> string, f: T -> T, g: T -> T)
    requires forall x :: idOf(f(x)) == idOf(x)
    ensures UpdateWhere(UpdateWhere(xs, id, idOf, f), id, idOf, g) == UpdateWhere(xs, id, idOf, x => g(f(x)))
  {
  }

  /** A rewrite that changes no item carrying `id` changes nothing. */
  lemma UpdateWhereNoop<T>(xs: seq<T>, id: string, idOf: T -> string, f: T -> T)
    requires forall x :: idOf(x) == id ==> f(x) == x
    ensures UpdateWhere(xs, id, idOf, f) == xs
  {
  }

  /** Save on the prayer page: an existing id is replaced where it stands,
      a new one goes to the end. */
  function SaveAppending<T>(xs: seq<T>, x: T, idOf: T -> string): (r: seq<T>)
    ensures |r| == if HasId(xs, idOf(x), idOf) then |xs| else |xs| + 1
    ensures forall i :: 0 <= i < |xs| ==> r[i] == (if idOf(xs[i]) == idOf(x) then x else xs[i])
    ensures !HasId(xs, idOf(x), idOf) ==> r == xs + [x]
    ensures UniqueIds(xs, idOf) ==> UniqueIds(r, idOf)
    ensures x in r
  {
    if HasId(xs, idOf(x), idOf) then ReplaceMatching(xs, x, idOf) else xs + [x]
  }

  /** Save on the small-group page: an existing id is replaced where it
      stands, a new one goes to the front. */
  function SavePrepending<T>(xs: seq<T>, x: T, idOf: T -> string): (r: seq<T>)
    ensures HasId(xs, idOf(x), idOf) ==> |r| == |xs|
    ensures HasId(xs, idOf(x), idOf) ==>
      forall i :: 0 <= i < |xs| ==> r[i] == (if idOf(xs[i]) == idOf(x) then x else xs[i])
    ensures !HasId(xs, idOf(x), idOf) ==> r == [x] + xs
    ensures UniqueIds(xs, idOf) ==> UniqueIds(r, idOf)
    ensures x in r
  {
    if HasId(xs, idOf(x), idOf) then ReplaceMatching(xs, x, idOf)
    else
      assert forall i :: 0 < i <= |xs| ==> ([x] + xs)[i] == xs[i - 1];
      [x] + xs
  }

  /** Saving the same item twice on the small-group page is the same as
      saving it once. */
  lemma SavePrependingTwice<T>(xs: seq<T>, x: T, idOf: T -> string)
    ensures SavePrepending(SavePrepending(xs, x, idOf), x, idOf) == SavePrepending(xs, x, idOf)
  {
    var once := SavePrepending(xs, x, idOf);
    var j :| 0 <= j < |once| && once[j] == x;
    assert HasId(once, idOf(x), idOf);
  }

  /** Journal save, and `Map.prototype.set` on an insertion-ordered map:
      the first item with `x`'s id becomes `x`, otherwise `x` is appended. */
  function Put<T>(xs: seq<T>, x: T, idOf: T -> string): (r: seq<T>)
    ensures |r| == if HasId(xs, idOf(x), idOf) then |xs| else |xs| + 1
    ensures forall i :: 0 <= i < |xs| ==> idOf(r[i]) == idOf(xs[i])
    ensures forall i :: 0 <= i < |xs| && idOf(xs[i]) != idOf(x) ==> r[i] == xs[i]
    ensures !HasId(xs, idOf(x), idOf) ==> r[|xs|] == x
    ensures forall i :: 0 <= i < |r| ==> r[i] == x || (i < |xs| && r[i] == xs[i])
    ensures UniqueIds(xs, idOf) ==> UniqueIds(r, idOf)
    ensures UniqueIds(xs, idOf) ==> forall i :: 0 <= i < |r| && idOf(r[i]) == idOf(x) ==> r[i] == x
    ensures x in r
  {
    var k := FindIndex(xs, idOf(x), idOf);
    if k >= 0 then xs[k := x] else xs + [x]
  }

  /** After a put, the first item carrying `x`'s id is `x` itself. */
  lemma PutFindsSaved<T>(xs: seq<T>, x: T, idOf: T -> string)
    ensures var r := Put(xs, x, idOf);
      FindIndex(r, idOf(x), idOf) >= 0 && r[FindIndex(r, idOf(x), idOf)] == x
  {
    var r := Put(xs, x, idOf);
    var k := FindIndex(xs, idOf(x), idOf);
    if k >= 0 {
      assert r[k] == x;
      assert FindIndex(r, idOf(x), idOf) == k;
    } else {
      assert r[|xs|] == x;
      assert FindIndex(r, idOf(x), idOf) == |xs|;
    }
  }

  /** Putting the same item twice is the same as putting it once. */
  lemma PutTwice<T>(xs: seq<T>, x: T, idOf: T -> string)
    ensures Put(Put(xs, x, idOf), x, idOf) == Put(xs, x, idOf)
  {
    PutFindsSaved(xs, x, idOf);
  }

  /** The two replace policies agree whenever ids are unique. */
  lemma SavePoliciesAgree<T>(xs: seq<T>, x: T, idOf: T -> string)
    requires UniqueIds(xs, idOf)
    ensures SaveAppending(xs, x, idOf) == Put(xs, x, idOf)
  {
    var a := SaveAppending(xs, x, idOf);
    var p := Put(xs, x, idOf);
    if HasId(xs, idOf(x), idOf) {
      forall i | 0 <= i < |xs| ensures a[i] == p[i] {
        if idOf(xs[i]) == idOf(x) {
          UniquePosition(xs, i, idOf);
        }
      }
    }
  }

  /** Saving an item and then an edit of it leaves exactly one item with
      that id, equal to the edit. */
  lemma SaveThenEdit<T>(xs: seq<T>, x: T, y: T, idOf: T -> string)
    requires UniqueIds(xs, idOf) && idOf(x) == idOf(y)
    ensures var r := SaveAppending(SaveAppending(xs, x, idOf), y, idOf);
      UniqueIds(r, idOf) && y in r && forall z :: z in r && idOf(z) == idOf(y) ==> z == y
  {
    var r1 := SaveAppending(xs, x, idOf);
    var r := SaveAppending(r1, y, idOf);
    assert HasId(r1, idOf(y), idOf);
  }

  /** Filtering keeps ids unique. */
  lemma {:induction false} FilterKeepsUnique<T(!new)>(xs: seq<T>, keep: T -> bool, idOf: T -> string)
    requires UniqueIds(xs, idOf)
    ensures UniqueIds(Filter(xs, keep), idOf)
    decreases |xs|
  {
    if |xs| > 0 {
      FilterKeepsUnique(xs[1..], keep, idOf);
      var rest := Filter(xs[1..], keep);
      forall z | z in rest ensures idOf(z) != idOf(xs[0]) {
        var j :| 0 <= j < |xs[1..]| && xs[1..][j] == z;
        assert xs[j + 1] == z;
      }
    }
  }

  /** `xs.filter(item => !ids.has(item.id))`: drops exactly the items whose
      id is in `ids`, keeping the order of the rest. */
  function RemoveIds<T(!new)>(xs: seq<T>, ids: set<string>, idOf: T -> string): (r: seq<T>)
    ensures forall x :: x in r <==> x in xs && idOf(x) !in ids
    ensures forall i :: 0 <= i < |r| ==> idOf(r[i]) !in ids
    ensures ids == {} ==> r == xs
    ensures UniqueIds(xs, idOf) ==> UniqueIds(r, idOf)
    ensures SubsequenceOf(r, xs)
  {
    var keep := (x: T) => idOf(x) !in ids;
    FilterSubsequence(xs, keep);
    assert ids == {} ==> Filter(xs, keep) == xs by {
      if ids == {} { FilterKeepsAll(xs, keep); }
    }
    assert UniqueIds(xs, idOf) ==> UniqueIds(Filter(xs, keep), idOf) by {
      if UniqueIds(xs, idOf) { FilterKeepsUnique(xs, keep, idOf); }
    }
    Filter(xs, keep)
  }
  /** With unique ids no item occurs twice. */
  lemma {:induction false} UniqueIdsSingleCopies<T>(xs: seq<T>, idOf: T -> string)
    requires UniqueIds(xs, idOf)
    ensures forall x :: multiset(xs)[x] <= 1
    decreases |xs|
  {
    if |xs| > 0 {
      UniqueIdsSingleCopies(xs[1..], idOf);
      assert xs == [xs[0]] + xs[1..];
      forall j | 0 <= j < |xs[1..]| ensures xs[1..][j] != xs[0] {
        assert idOf(xs[j + 1]) != idOf(xs[0]);
      }
    }
  }

  /** An item occurring at most once sits at one position only. */
  lemma SingleCopiesDistinct<T>(ys: seq<T>)
    requires forall x :: multiset(ys)[x] <= 1
    ensures forall i, j :: 0 <= i < j < |ys| ==> ys[i] != ys[j]
  {
    forall i, j | 0 <= i < j < |ys| ensures ys[i] != ys[j] {
      assert ys == ys[..j] + ys[j..];
      assert ys[j..][0] == ys[j];
      assert multiset(ys)[ys[j]] == multiset(ys[..j])[ys[j]] + multiset(ys[j..])[ys[j]];
      assert multiset(ys[..j])[ys[j]] == 0;
      assert ys[..j][i] == ys[i];
    }
  }

  /** Reordering keeps ids unique: the sorts applied after a save or a
      collect cannot create a duplicate. */
  lemma PermutationKeepsUniqueIds<T>(xs: seq<T>, ys: seq<T>, idOf: T -> string)
    requires UniqueIds(xs, idOf) && multiset(xs) == multiset(ys)
    ensures UniqueIds(ys, idOf)
  {
    UniqueIdsSingleCopies(xs, idOf);
    SingleCopiesDistinct(ys);
    forall i, j | 0 <= i < j < |ys| ensures idOf(ys[i]) != idOf(ys[j]) {
      assert ys[i] in multiset(xs) && ys[j] in multiset(xs);
      var p :| 0 <= p < |xs| && xs[p] == ys[i];
      var q :| 0 <= q < |xs| && xs[q] == ys[j];
      assert p != q;
    }
  }
}
