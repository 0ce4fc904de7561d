/** The import merge: an insertion-ordered `Map` keyed by id, filled first
    from the stored items and then from the imported ones, whose values
    become the new stored array. */
module Merge {
  import opened Keyed
  import opened Lists

  /** Feeding `xs` into the map one `set` call at a time. */
  function PutAll<T>(m: seq<T>, xs: seq<T>, idOf: T -> string): (r: seq<T>)
    ensures |r| >= |m|
    ensures forall i :: 0 <= i < |m| ==> idOf(r[i]) == idOf(m[i])
    ensures UniqueIds(m, idOf) ==> UniqueIds(r, idOf)
    decreases |xs|
  {
    if |xs| == 0 then m
    else Put(PutAll(m, xs[..|xs| - 1], idOf), xs[|xs| - 1], idOf)
  }

  /** The last item of `xs` carrying `id`: the value a run of `set` calls leaves behind. */
  function LastWith<T>(xs: seq<T>, id: string, idOf: T -> string): (r: T)
    requires HasId(xs, id, idOf)
    ensures r in xs && idOf(r) == id
    decreases |xs|
  {
    var last := xs[|xs| - 1];
    if idOf(last) == id then last
    else
      var i :| 0 <= i < |xs| && idOf(xs[i]) == id;
      assert xs[..|xs| - 1][i] == xs[i];
      LastWith(xs[..|xs| - 1], id, idOf)
  }

  /** Splitting off the last item of a non-empty sequence. */
  lemma LastSplit<T>(xs: seq<T>, idOf: T -> string)
    requires |xs| > 0
    ensures var init := xs[..|xs| - 1];
      && xs == init + [xs[|xs| - 1]]
      && (forall k :: HasId(xs, k, idOf) <==> HasId(init, k, idOf) || k == idOf(xs[|xs| - 1]))
      && (forall y :: y in xs <==> y in init || y == xs[|xs| - 1])
  {
    var init := xs[..|xs| - 1];
    forall k | HasId(xs, k, idOf) ensures HasId(init, k, idOf) || k == idOf(xs[|xs| - 1]) {
      var i :| 0 <= i < |xs| && idOf(xs[i]) == k;
      if i < |xs| - 1 { assert init[i] == xs[i]; }
    }
    forall k | HasId(init, k, idOf) ensures HasId(xs, k, idOf) {
      var i :| 0 <= i < |init| && idOf(init[i]) == k;
      assert xs[i] == init[i];
    }
    assert HasId(xs, idOf(xs[|xs| - 1]), idOf);
  }

  /** The map ends up with the ids of both sources and only their items. */
  lemma {:induction false} PutAllIds<T>(m: seq<T>, xs: seq<T>, idOf: T -> string)
    ensures forall k :: HasId(PutAll(m, xs, idOf), k, idOf) <==> HasId(m, k, idOf) || HasId(xs, k, idOf)
    ensures forall y :: y in PutAll(m, xs, idOf) ==> y in m || y in xs
    decreases |xs|
  {
    if |xs| > 0 {
      var init := xs[..|xs| - 1];
      var x := xs[|xs| - 1];
      var r := PutAll(m, init, idOf);
      var r' := PutAll(m, xs, idOf);
      PutAllIds(m, init, idOf);
      LastSplit(xs, idOf);
      assert r' == Put(r, x, idOf);
      forall k ensures HasId(r', k, idOf) <==> HasId(r, k, idOf) || k == idOf(x) {
        if HasId(r', k, idOf) {
          var i :| 0 <= i < |r'| && idOf(r'[i]) == k;
          if i < |r| { assert idOf(r[i]) == k; }
        }
        if HasId(r, k, idOf) {
          var i :| 0 <= i < |r| && idOf(r[i]) == k;
          assert idOf(r'[i]) == k;
        }
        if k == idOf(x) {
          assert x in r';
          var i :| 0 <= i < |r'| && r'[i] == x;
        }
      }
    }
  }

  /** Every position whose id `xs` carries holds `xs`'s last item with that id. */
  ghost predicate ImportWins<T>(r: seq<T>, xs: seq<T>, idOf: T -> string) {
    forall i :: 0 <= i < |r| && HasId(xs, idOf(r[i]), idOf) ==> r[i] == LastWith(xs, idOf(r[i]), idOf)
  }

  /** The first `|m|` positions of `r` still hold `m`'s items wherever `xs` does not carry their id. */
  ghost predicate KeepsUntouched<T>(m: seq<T>, r: seq<T>, xs: seq<T>, idOf: T -> string) {
    |r| >= |m| && forall i :: 0 <= i < |m| && !HasId(xs, idOf(m[i]), idOf) ==> r[i] == m[i]
  }

  /** The positions after `m`'s hold ids new to `m`, ordered by where `xs` first mentions them. */
  ghost predicate NewIdsInOrder<T>(m: seq<T>, r: seq<T>, xs: seq<T>, idOf: T -> string) {
    && (forall i :: |m| <= i < |r| ==> !HasId(m, idOf(r[i]), idOf) && HasId(xs, idOf(r[i]), idOf))
    && (forall i, j :: |m| <= i < j < |r| ==> FindIndex(xs, idOf(r[i]), idOf) < FindIndex(xs, idOf(r[j]), idOf))
  }

  /** Every id the import carries ends up holding the import's last item with that id. */
  lemma {:induction false} PutAllLastWins<T>(m: seq<T>, xs: seq<T>, idOf: T -> string)
    requires UniqueIds(m, idOf)
    ensures ImportWins(PutAll(m, xs, idOf), xs, idOf)
    decreases |xs|
  {
    if |xs| > 0 {
      var init := xs[..|xs| - 1];
      var x := xs[|xs| - 1];
      var r := PutAll(m, init, idOf);
      var r' := PutAll(m, xs, idOf);
      PutAllLastWins(m, init, idOf);
      LastSplit(xs, idOf);
      assert r' == Put(r, x, idOf);
      forall i | 0 <= i < |r'| && HasId(xs, idOf(r'[i]), idOf)
        ensures r'[i] == LastWith(xs, idOf(r'[i]), idOf)
      {
        var k := idOf(r'[i]);
        if k != idOf(x) {
          assert i < |r| && r'[i] == r[i];
          assert HasId(init, k, idOf);
          assert r[i] == LastWith(init, k, idOf);
          assert LastWith(xs, k, idOf) == LastWith(init, k, idOf);
        } else {
          assert r'[i] == x;
          assert LastWith(xs, k, idOf) == x;
        }
      }
    }
  }

  /** Stored items whose id the import does not carry are left as they were. */
  lemma {:induction false} PutAllKeepsUntouched<T>(m: seq<T>, xs: seq<T>, idOf: T -> string)
    ensures KeepsUntouched(m, PutAll(m, xs, idOf), xs, idOf)
    decreases |xs|
  {
    if |xs| > 0 {
      PutAllKeepsUntouched(m, xs[..|xs| - 1], idOf);
      LastSplit(xs, idOf);
    }
  }

  /** `findIndex` on an extended sequence. */
  lemma {:induction false} FindIndexExtend<T>(init: seq<T>, x: T, id: string, idOf: T -> string)
    ensures FindIndex(init + [x], id, idOf) ==
      if HasId(init, id, idOf) then FindIndex(init, id, idOf)
      else if idOf(x) == id then |init| else -1
    decreases |init|
  {
    if |init| > 0 {
      FindIndexExtend(init[1..], x, id, idOf);
      assert (init + [x])[1..] == init[1..] + [x];
      assert forall i :: 0 < i < |init| ==> init[i] == init[1..][i - 1];
    }
  }

  /** New ids are appended after the stored ones, in the order the import
      first mentions them. */
  lemma {:induction false} PutAllNewOrder<T>(m: seq<T>, xs: seq<T>, idOf: T -> string)
    ensures NewIdsInOrder(m, PutAll(m, xs, idOf), xs, idOf)
    decreases |xs|
  {
    if |xs| > 0 {
      var init := xs[..|xs| - 1];
      var x := xs[|xs| - 1];
      var r := PutAll(m, init, idOf);
      var r' := PutAll(m, xs, idOf);
      PutAllNewOrder(m, init, idOf);
      PutAllIds(m, init, idOf);
      LastSplit(xs, idOf);
      assert r' == Put(r, x, idOf);
      forall i | |m| <= i < |r'| ensures HasId(xs, idOf(r'[i]), idOf) && !HasId(m, idOf(r'[i]), idOf) {
        if i < |r| {
          assert idOf(r'[i]) == idOf(r[i]);
          assert !HasId(m, idOf(r[i]), idOf);
          assert HasId(init, idOf(r[i]), idOf);
        } else {
          assert !HasId(r, idOf(x), idOf) && r'[i] == x;
          assert !HasId(m, idOf(x), idOf);
          assert idOf(xs[|xs| - 1]) == idOf(x);
        }
      }
      forall i | |m| <= i < |r| ensures FindIndex(xs, idOf(r[i]), idOf) == FindIndex(init, idOf(r[i]), idOf) {
        FindIndexExtend(init, x, idOf(r[i]), idOf);
      }
      if !HasId(r, idOf(x), idOf) {
        FindIndexExtend(init, x, idOf(x), idOf);
        assert !HasId(init, idOf(x), idOf);
      }
    }
  }

  /** Distinct fresh ids are simply appended: merging into an empty map is the identity. */
  lemma {:induction false} PutAllFresh<T>(m: seq<T>, xs: seq<T>, idOf: T -> string)
    requires UniqueIds(m + xs, idOf)
    ensures PutAll(m, xs, idOf) == m + xs
    decreases |xs|
  {
    if |xs| > 0 {
      var init := xs[..|xs| - 1];
      var x := xs[|xs| - 1];
      assert m + xs == (m + init) + [x];
      assert UniqueIds(m + init, idOf) by {
        forall i, j | 0 <= i < j < |m + init| ensures idOf((m + init)[i]) != idOf((m + init)[j]) {
          assert (m + init)[i] == (m + xs)[i] && (m + init)[j] == (m + xs)[j];
        }
      }
      PutAllFresh(m, init, idOf);
      assert !HasId(m + init, idOf(x), idOf) by {
        forall i | 0 <= i < |m + init| ensures idOf((m + init)[i]) != idOf(x) {
          assert (m + init)[i] == (m + xs)[i] && x == (m + xs)[|m + xs| - 1];
        }
      }
    }
  }

  /** When every imported id is already stored, the map keeps its order and
      each imported id takes the import's last item with that id. */
  lemma {:induction false} PutAllPresent<T>(m: seq<T>, xs: seq<T>, idOf: T -> string)
    requires UniqueIds(m, idOf)
    requires forall x :: x in xs ==> HasId(m, idOf(x), idOf)
    ensures |PutAll(m, xs, idOf)| == |m|
    ensures forall i :: 0 <= i < |m| ==>
      PutAll(m, xs, idOf)[i] == if HasId(xs, idOf(m[i]), idOf) then LastWith(xs, idOf(m[i]), idOf) else m[i]
    decreases |xs|
  {
    if |xs| > 0 {
      var init := xs[..|xs| - 1];
      var x := xs[|xs| - 1];
      var r := PutAll(m, init, idOf);
      var r' := PutAll(m, xs, idOf);
      LastSplit(xs, idOf);
      PutAllPresent(m, init, idOf);
      assert r' == Put(r, x, idOf);
      assert HasId(r, idOf(x), idOf) by {
        var i :| 0 <= i < |m| && idOf(m[i]) == idOf(x);
        assert idOf(r[i]) == idOf(x);
      }
    }
  }

  /** Running the same sequence of `set` calls twice gives what running it once gives. */
  lemma PutAllIdempotent<T>(m: seq<T>, xs: seq<T>, idOf: T -> string)
    requires UniqueIds(m, idOf)
    ensures PutAll(PutAll(m, xs, idOf), xs, idOf) == PutAll(m, xs, idOf)
  {
    var r := PutAll(m, xs, idOf);
    PutAllIds(m, xs, idOf);
    forall x | x in xs ensures HasId(r, idOf(x), idOf) {
      assert HasId(xs, idOf(x), idOf);
    }
    PutAllLastWins(m, xs, idOf);
    PutAllPresent(r, xs, idOf);
  }

  /** The imported items that take part: those whose id is truthy (non-empty). */
  function Importable<T(!new)>(imported: seq<T>, idOf: T -> string): (r: seq<T>)
    ensures forall x :: x in r <==> x in imported && idOf(x) != ""
  {
    Filter(imported, (x: T) => idOf(x) != "")
  }

  /** An imported id takes part exactly when it is non-empty. */
  lemma ImportableIds<T(!new)>(imported: seq<T>, idOf: T -> string)
    ensures forall k :: HasId(Importable(imported, idOf), k, idOf) <==> k != "" && HasId(imported, k, idOf)
  {
    var imp := Importable(imported, idOf);
    forall k ensures HasId(imp, k, idOf) <==> k != "" && HasId(imported, k, idOf) {
      if k != "" && HasId(imported, k, idOf) {
        var i :| 0 <= i < |imported| && idOf(imported[i]) == k;
        assert imported[i] in imp;
        var j :| 0 <= j < |imp| && imp[j] == imported[i];
      }
      if HasId(imp, k, idOf) {
        var j :| 0 <= j < |imp| && idOf(imp[j]) == k;
        assert imp[j] in imported;
        var i :| 0 <= i < |imported| && imported[i] == imp[j];
      }
    }
  }

  /** Loading stored items with distinct ids into an empty map reproduces them. */
  lemma LoadUnique<T>(existing: seq<T>, idOf: T -> string)
    requires UniqueIds(existing, idOf)
    ensures PutAll([], existing, idOf) == existing
  {
    assert [] + existing == existing;
    PutAllFresh([], existing, idOf);
  }

  /** The merged array for one collection key: stored items keyed by id,
      then every imported item with a non-empty id inserted or overwriting.
      With distinct stored ids, stored items keep their places (overwritten
      in place when the import carries their id) and new ids follow in the
      order the import first mentions them. */
  function MergeById<T(!new)>(existing: seq<T>, imported: seq<T>, idOf: T -> string): (r: seq<T>)
    ensures UniqueIds(r, idOf)
    ensures forall k :: HasId(r, k, idOf) <==> HasId(existing, k, idOf) || (k != "" && HasId(imported, k, idOf))
    ensures forall y :: y in r ==> y in existing || (y in imported && idOf(y) != "")
    ensures ImportWins(r, Importable(imported, idOf), idOf)
    ensures UniqueIds(existing, idOf) ==>
      && KeepsUntouched(existing, r, Importable(imported, idOf), idOf)
      && (forall i :: 0 <= i < |existing| ==> idOf(r[i]) == idOf(existing[i]))
      && NewIdsInOrder(existing, r, Importable(imported, idOf), idOf)
  {
    var imp := Importable(imported, idOf);
    var base := PutAll([], existing, idOf);
    assert UniqueIds([], idOf);
    assert forall k :: !HasId([], k, idOf);
    PutAllIds([], existing, idOf);
    PutAllIds(base, imp, idOf);
    PutAllLastWins(base, imp, idOf);
    ImportableIds(imported, idOf);
    assert UniqueIds(existing, idOf) ==> base == existing by {
      if UniqueIds(existing, idOf) { LoadUnique(existing, idOf); }
    }
    PutAllKeepsUntouched(base, imp, idOf);
    PutAllNewOrder(base, imp, idOf);
    PutAll(base, imp, idOf)
  }

  /** Importing the same array twice gives the same result as importing it once. */
  lemma MergeIdempotent<T(!new)>(existing: seq<T>, imported: seq<T>, idOf: T -> string)
    ensures MergeById(MergeById(existing, imported, idOf), imported, idOf) == MergeById(existing, imported, idOf)
  {
    var imp := Importable(imported, idOf);
    var base := PutAll([], existing, idOf);
    var r := MergeById(existing, imported, idOf);
    assert UniqueIds([], idOf);
    assert [] + r == r;
    PutAllFresh([], r, idOf);
    PutAllIdempotent(base, imp, idOf);
  }

  /** Merging distinct, non-empty ids into an empty store returns them unchanged. */
  lemma MergeIntoEmpty<T(!new)>(imported: seq<T>, idOf: T -> string)
    requires UniqueIds(imported, idOf)
    requires forall x :: x in imported ==> idOf(x) != ""
    ensures MergeById([], imported, idOf) == imported
  {
    FilterKeepsAll(imported, (x: T) => idOf(x) != "");
    assert UniqueIds([], idOf);
    assert [] + imported == imported;
    PutAllFresh([], imported, idOf);
  }

  /** Merging stored items with a copy of themselves changes nothing, when
      their ids are distinct and non-empty: importing a fresh backup into the
      store it came from leaves each collection as it was. */
  lemma MergeSelf<T(!new)>(xs: seq<T>, idOf: T -> string)
    requires UniqueIds(xs, idOf)
    requires forall x :: x in xs ==> idOf(x) != ""
    ensures MergeById(xs, xs, idOf) == xs
  {
    MergeIntoEmpty(xs, idOf);
    MergeIdempotent([], xs, idOf);
  }
}
