/** The like button and the comment thread that the prayer page and the
    journal page both attach to their items. The two pages run the same
    handlers on different record types, so the handlers are written once
    over an `Access` record that reads and rewrites the social fields. */
module Social {
  import opened Wrappers
  import opened Text
  import opened Lists
  import opened Keyed
  import opened Entities

  /** How to read and rewrite an item's id, like state and comments. */
  datatype Access<!T> = Access(
    idOf: T -> string,
    liked: T -> bool,
    likes: T -> int,
    withLike: (T, bool, int) -> T,
    comments: T -> seq<Comment>,
    withComments: (T, seq<Comment>) -> T)

  /** The accessors behave like record fields: a rewrite is read back, keeps
      the id and the other field, overwrites an earlier rewrite, and writing
      back what was read changes nothing. */
  ghost predicate Lawful<T(!new)>(a: Access<T>) {
    && (forall x, l, n :: a.liked(a.withLike(x, l, n)) == l && a.likes(a.withLike(x, l, n)) == n)
    && (forall x, l, n :: a.idOf(a.withLike(x, l, n)) == a.idOf(x) && a.comments(a.withLike(x, l, n)) == a.comments(x))
    && (forall x, l, n, l', n' :: a.withLike(a.withLike(x, l, n), l', n') == a.withLike(x, l', n'))
    && (forall x :: a.withLike(x, a.liked(x), a.likes(x)) == x)
    && (forall x, cs :: a.comments(a.withComments(x, cs)) == cs && a.idOf(a.withComments(x, cs)) == a.idOf(x))
    && (forall x, cs, cs' :: a.withComments(a.withComments(x, cs), cs') == a.withComments(x, cs'))
    && (forall x :: a.withComments(x, a.comments(x)) == x)
  }

  /** The like button on one item: the flag flips and the counter follows it. */
  function Liked<T>(a: Access<T>, x: T): T {
    var now := !a.liked(x);
    a.withLike(x, now, if now then a.likes(x) + 1 else a.likes(x) - 1)
  }

  /** `handleToggleLike`: the item carrying `id` flips `liked`; its `likes`
      goes up by one when it becomes liked and down by one otherwise. */
  function ToggleLike<T(!new)>(xs: seq<T>, id: string, a: Access<T>): (r: seq<T>)
    ensures |r| == |xs|
    ensures forall i :: 0 <= i < |xs| && a.idOf(xs[i]) != id ==> r[i] == xs[i]
    ensures Lawful(a) ==> forall i :: 0 <= i < |xs| && a.idOf(xs[i]) == id ==>
      && a.liked(r[i]) == !a.liked(xs[i])
      && a.likes(r[i]) == a.likes(xs[i]) + (if a.liked(r[i]) then 1 else -1)
      && a.idOf(r[i]) == id
      && a.comments(r[i]) == a.comments(xs[i])
  {
    UpdateWhere(xs, id, a.idOf, x => Liked(a, x))
  }

  /** Liking twice restores every item. */
  lemma ToggleLikeTwice<T(!new)>(xs: seq<T>, id: string, a: Access<T>)
    requires Lawful(a)
    ensures ToggleLike(ToggleLike(xs, id, a), id, a) == xs
  {
    var once := ToggleLike(xs, id, a);
    var twice := ToggleLike(once, id, a);
    forall i | 0 <= i < |xs| ensures twice[i] == xs[i] {
      if a.idOf(xs[i]) == id {
        var x := xs[i];
        assert once[i] == a.withLike(x, !a.liked(x), if !a.liked(x) then a.likes(x) + 1 else a.likes(x) - 1);
        assert twice[i] == a.withLike(x, a.liked(x), a.likes(x));
      }
    }
  }

  /** The number of likes from others, `likes` without the user's own, is
      the same before and after a toggle. */
  lemma ToggleLikeKeepsOthers<T(!new)>(xs: seq<T>, id: string, a: Access<T>)
    requires Lawful(a)
    ensures var r := ToggleLike(xs, id, a);
      forall i :: 0 <= i < |xs| ==>
        a.likes(r[i]) - (if a.liked(r[i]) then 1 else 0) == a.likes(xs[i]) - (if a.liked(xs[i]) then 1 else 0)
  {
  }

  /** `newCommentText[itemId]?.trim()` followed by `if (!text) return`: a
      missing or blank draft yields nothing, anything else its trimmed text. */
  function CommentText(draft: Option<string>): (r: Option<string>)
    ensures r.Some? ==> |r.value| > 0 && IsTrimmed(r.value)
    ensures r.None? <==> draft.None? || forall k :: 0 <= k < |draft.value| ==> IsWhitespace(draft.value[k])
    ensures r.Some? ==> r.value == Trim(draft.value)
  {
    if draft.None? then None
    else
      var t := Trim(draft.value);
      if t == "" then None else Some(t)
  }

  /** `handleAddComment`: a blank draft changes nothing; otherwise the item
      carrying `id` gets one new comment, last, holding the trimmed text. */
  function AddComment<T(!new)>(xs: seq<T>, id: string, draft: Option<string>, cid: string, now: string, a: Access<T>): (r: seq<T>)
    ensures CommentText(draft).None? ==> r == xs
    ensures |r| == |xs|
    ensures forall i :: 0 <= i < |xs| && a.idOf(xs[i]) != id ==> r[i] == xs[i]
    ensures Lawful(a) && CommentText(draft).Some? ==> forall i :: 0 <= i < |xs| && a.idOf(xs[i]) == id ==>
      && a.comments(r[i]) == a.comments(xs[i]) + [Comment(cid, CommentText(draft).value, now)]
      && a.idOf(r[i]) == id
  {
    match CommentText(draft)
    case None => xs
    case Some(t) => UpdateWhere(xs, id, a.idOf, x => a.withComments(x, a.comments(x) + [Comment(cid, t, now)]))
  }

  /** `comments.filter(c => c.id !== commentId)`. */
  function RemoveComment(cs: seq<Comment>, cid: string): (r: seq<Comment>)
    ensures forall c :: c in r <==> c in cs && c.id != cid
    ensures SubsequenceOf(r, cs)
  {
    FilterSubsequence(cs, (c: Comment) => c.id != cid);
    Filter(cs, (c: Comment) => c.id != cid)
  }

  /** `handleDeleteComment`: the item carrying `id` loses the comments
      carrying `cid`; the rest keep their relative order. */
  function DeleteComment<T(!new)>(xs: seq<T>, id: string, cid: string, a: Access<T>): (r: seq<T>)
    ensures |r| == |xs|
    ensures forall i :: 0 <= i < |xs| && a.idOf(xs[i]) != id ==> r[i] == xs[i]
    ensures Lawful(a) ==> forall i :: 0 <= i < |xs| && a.idOf(xs[i]) == id ==>
      && (forall c :: c in a.comments(r[i]) <==> c in a.comments(xs[i]) && c.id != cid)
      && SubsequenceOf(a.comments(r[i]), a.comments(xs[i]))
      && a.idOf(r[i]) == id
  {
    UpdateWhere(xs, id, a.idOf, x => a.withComments(x, RemoveComment(a.comments(x), cid)))
  }

  /** `comments.map(c => c.id === commentId ? { ...c, text } : c)`. */
  function EditText(cs: seq<Comment>, cid: string, text: string): (r: seq<Comment>)
    ensures |r| == |cs|
    ensures forall k :: 0 <= k < |cs| ==>
      r[k].id == cs[k].id && r[k].createdAt == cs[k].createdAt
      && r[k].text == (if cs[k].id == cid then text else cs[k].text)
  {
    seq(|cs|, k requires 0 <= k < |cs| => if cs[k].id == cid then cs[k].(text := text) else cs[k])
  }

  /** The comment being edited: item id, comment id and the edited text. */
  datatype CommentEdit = CommentEdit(itemId: string, commentId: string, text: string)

  /** `handleUpdateComment`: without an edit in progress nothing changes;
      otherwise only the text of the matching comment changes, to the edited
      text as typed (it is not trimmed), in place. */
  function UpdateComment<T(!new)>(xs: seq<T>, edit: Option<CommentEdit>, a: Access<T>): (r: seq<T>)
    ensures edit.None? ==> r == xs
    ensures |r| == |xs|
    ensures edit.Some? ==> forall i :: 0 <= i < |xs| && a.idOf(xs[i]) != edit.value.itemId ==> r[i] == xs[i]
    ensures Lawful(a) && edit.Some? ==> forall i :: 0 <= i < |xs| && a.idOf(xs[i]) == edit.value.itemId ==>
      var before, after := a.comments(xs[i]), a.comments(r[i]);
      && |after| == |before|
      && (forall k :: 0 <= k < |before| ==>
           after[k].id == before[k].id && after[k].createdAt == before[k].createdAt
           && after[k].text == (if before[k].id == edit.value.commentId then edit.value.text else before[k].text))
      && a.idOf(r[i]) == a.idOf(xs[i])
  {
    match edit
    case None => xs
    case Some(e) => UpdateWhere(xs, e.itemId, a.idOf, x => a.withComments(x, EditText(a.comments(x), e.commentId, e.text)))
  }

  /** Adding a comment under a fresh id and then deleting it restores every item. */
  lemma AddThenDelete<T(!new)>(xs: seq<T>, id: string, draft: Option<string>, cid: string, now: string, a: Access<T>)
    requires Lawful(a)
    requires forall i, c :: 0 <= i < |xs| && a.idOf(xs[i]) == id && c in a.comments(xs[i]) ==> c.id != cid
    ensures DeleteComment(AddComment(xs, id, draft, cid, now, a), id, cid, a) == xs
  {
    var added := AddComment(xs, id, draft, cid, now, a);
    var r := DeleteComment(added, id, cid, a);
    if CommentText(draft).Some? {
      var c := Comment(cid, CommentText(draft).value, now);
      forall i | 0 <= i < |xs| ensures r[i] == xs[i] {
        if a.idOf(xs[i]) == id {
          var cs := a.comments(xs[i]);
          var keep := (c': Comment) => c'.id != cid;
          FilterConcat(cs, [c], keep);
          FilterKeepsAll(cs, keep);
          assert Filter([c], keep) == [];
          assert RemoveComment(cs + [c], cid) == cs;
          assert r[i] == a.withComments(a.withComments(xs[i], cs + [c]), cs);
        }
      }
    } else {
      forall i | 0 <= i < |xs| && a.idOf(xs[i]) == id ensures r[i] == xs[i] {
        var cs := a.comments(xs[i]);
        FilterKeepsAll(cs, (c': Comment) => c'.id != cid);
      }
    }
  }

  /** Deleting a comment after editing it gives the same items as deleting
      it straight away. */
  lemma EditThenDelete<T(!new)>(xs: seq<T>, id: string, cid: string, text: string, a: Access<T>)
    requires Lawful(a)
    ensures DeleteComment(UpdateComment(xs, Some(CommentEdit(id, cid, text)), a), id, cid, a) == DeleteComment(xs, id, cid, a)
  {
    var edited := UpdateComment(xs, Some(CommentEdit(id, cid, text)), a);
    var r1 := DeleteComment(edited, id, cid, a);
    var r2 := DeleteComment(xs, id, cid, a);
    forall i | 0 <= i < |xs| ensures r1[i] == r2[i] {
      if a.idOf(xs[i]) == id {
        var cs := a.comments(xs[i]);
        EditTextThenRemove(cs, cid, text);
        assert r1[i] == a.withComments(a.withComments(xs[i], EditText(cs, cid, text)), RemoveComment(EditText(cs, cid, text), cid));
      }
    }
  }

  lemma {:induction false} EditTextThenRemove(cs: seq<Comment>, cid: string, text: string)
    ensures RemoveComment(EditText(cs, cid, text), cid) == RemoveComment(cs, cid)
    decreases |cs|
  {
    if |cs| > 0 {
      EditTextThenRemove(cs[1..], cid, text);
      assert EditText(cs, cid, text)[1..] == EditText(cs[1..], cid, text);
    }
  }
}
