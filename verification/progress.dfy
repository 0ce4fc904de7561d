/** The nested progress maps: `book → chapter → flag` for the reading
    tracker and `plan → day → flag` for reading plans. JavaScript object keys
    are strings, so a numeric chapter and its decimal string name the same
    key; the model keys inner maps by the number. */
module Progress {

  type ProgressMap = map<string, map<int, bool>>

  /** `progress[book] || {}`. */
  function ChaptersOf(p: ProgressMap, book: string): map<int, bool> {
    if book in p then p[book] else map[]
  }

  /** `!!progress[book]?.[chapter]`: the chapter is stored with a truthy value. */
  predicate Marked(p: ProgressMap, book: string, chapter: int) {
    chapter in ChaptersOf(p, book) && ChaptersOf(p, book)[chapter]
  }

  /** Every flag of one inner map is `true`. */
  predicate AllTrueIn(m: map<int, bool>) {
    forall c :: c in m ==> m[c]
  }

  /** Every stored flag is `true`, as the pages themselves only ever store `true`. */
  predicate AllTrue(p: ProgressMap) {
    forall b :: b in p ==> AllTrueIn(p[b])
  }

  /** No book maps to an empty object. */
  predicate NoEmptyBooks(p: ProgressMap) {
    forall b :: b in p ==> |p[b]| > 0
  }

  /** `r` holds the same flags as `m` for every key other than `c`. */
  ghost predicate SameOtherKeys(m: map<int, bool>, r: map<int, bool>, c: int) {
    forall k :: k != c ==> (k in r <==> k in m) && (k in r ==> r[k] == m[k])
  }

  /** `r` holds the same inner map as `p` for every outer key other than `book`. */
  ghost predicate SameOtherBooks(p: ProgressMap, r: ProgressMap, book: string) {
    forall b :: b != book ==> (b in r <==> b in p) && (b in r ==> r[b] == p[b])
  }

  /** `m[c] = true` on a copy of an inner map. */
  function SetFlag(m: map<int, bool>, c: int): (r: map<int, bool>)
    ensures c in r && r[c]
    ensures SameOtherKeys(m, r, c)
    ensures |r| > 0
    ensures |r| == if c in m then |m| else |m| + 1
    ensures AllTrueIn(m) ==> AllTrueIn(r)
  {
    m[c := true]
  }

  /** `delete m[c]` on a copy of an inner map. */
  function ClearFlag(m: map<int, bool>, c: int): (r: map<int, bool>)
    ensures c !in r
    ensures SameOtherKeys(m, r, c)
    ensures r.Keys <= m.Keys
    ensures |r| == if c in m then |m| - 1 else |m|
    ensures AllTrueIn(m) ==> AllTrueIn(r)
  {
    m - {c}
  }

  ghost function PickKey(p: ProgressMap): (b: string)
    requires p != map[]
    ensures b in p
  {
    var b :| b in p; b
  }

  /** The number of stored inner keys, summed over the outer keys. */
  ghost function KeyCount(p: ProgressMap): nat
    decreases |p|
  {
    if p == map[] then 0
    else
      var b := PickKey(p);
      assert |p - {b}| < |p| by { assert p - {b} != p; assert (p - {b}).Keys < p.Keys; }
      |p[b]| + KeyCount(p - {b})
  }

  /** The sum does not depend on which outer key is taken first. */
  lemma {:induction false} KeyCountRemove(p: ProgressMap, b: string)
    requires b in p
    ensures KeyCount(p) == |p[b]| + KeyCount(p - {b})
    decreases |p|
  {
    var x := PickKey(p);
    if x != b {
      Shrinks(p, x);
      Shrinks(p, b);
      KeyCountRemove(p - {x}, b);
      KeyCountRemove(p - {b}, x);
      KeyCountSwap(p, x, b);
    }
  }

  /** Taking `x` first and then `b` sums the same as `b` and then `x`. */
  lemma KeyCountSwap(p: ProgressMap, x: string, b: string)
    requires x in p && b in p && x != b && x == PickKey(p)
    requires KeyCount(p - {x}) == |(p - {x})[b]| + KeyCount(p - {x} - {b})
    requires KeyCount(p - {b}) == |(p - {b})[x]| + KeyCount(p - {b} - {x})
    ensures KeyCount(p) == |p[b]| + KeyCount(p - {b})
  {
    MinusCommute(p, x, b);
    KeyCountUnfold(p);
  }

  lemma MinusCommute(p: ProgressMap, x: string, b: string)
    ensures p - {x} - {b} == p - {b} - {x}
  {
  }

  lemma KeyCountUnfold(p: ProgressMap)
    requires p != map[]
    ensures KeyCount(p) == |p[PickKey(p)]| + KeyCount(p - {PickKey(p)})
  {
  }

  lemma Shrinks(p: ProgressMap, b: string)
    requires b in p
    ensures |p - {b}| == |p| - 1
  {
    assert (p - {b}).Keys == p.Keys - {b};
  }

  /** Dropping one outer entry lowers the sum by that entry's size. */
  lemma KeyCountDrop(p: ProgressMap, b: string)
    ensures KeyCount(p - {b}) == KeyCount(p) - |ChaptersOf(p, b)|
  {
    if b in p {
      KeyCountRemove(p, b);
    } else {
      assert p - {b} == p;
    }
  }

  /** Replacing one outer entry changes the sum by the difference of its sizes. */
  lemma KeyCountUpdate(p: ProgressMap, b: string, m: map<int, bool>)
    ensures KeyCount(p[b := m]) == KeyCount(p) - |ChaptersOf(p, b)| + |m|
  {
    var q := p[b := m];
    KeyCountRemove(q, b);
    assert q - {b} == p - {b};
    KeyCountDrop(p, b);
  }
}
