/** The sermon-note form: its starting state, its inputs, and the tag field,
    which is edited as one comma-separated string and parsed on save. */
module NoteForm {
  import opened Wrappers
  import opened Text
  import opened Lists
  import opened Entities

  /** A parsed tag: non-empty, free of commas, with no surrounding blanks. */
  predicate WellFormedTag(t: string) {
    |t| > 0 && ',' !in t && IsTrimmed(t)
  }

  /** `map(tag => tag.trim())`. */
  function TrimAll(parts: seq<string>): (r: seq<string>)
    ensures |r| == |parts|
    ensures forall k :: 0 <= k < |parts| ==> r[k] == Trim(parts[k])
  {
    seq(|parts|, k requires 0 <= k < |parts| => Trim(parts[k]))
  }

  function NonEmpty(t: string): bool { t != "" }

  /** Trimming comma-free pieces leaves only well-formed tags and blanks. */
  lemma TrimAllWellFormed(pieces: seq<string>)
    requires forall k :: 0 <= k < |pieces| ==> ',' !in pieces[k]
    ensures forall t :: t in TrimAll(pieces) ==> t == "" || WellFormedTag(t)
  {
    var trimmed := TrimAll(pieces);
    forall t | t in trimmed ensures t == "" || WellFormedTag(t) {
      var k :| 0 <= k < |trimmed| && trimmed[k] == t;
      TrimKeepsOut(pieces[k], ',');
    }
  }

  /** `tagInput.split(',').map(tag => tag.trim()).filter(Boolean)`. */
  function ParseTags(input: string): (r: seq<string>)
    ensures forall k :: 0 <= k < |r| ==> WellFormedTag(r[k])
    ensures forall t :: t in r <==> t != "" && t in TrimAll(Split(input, ','))
    ensures SubsequenceOf(r, TrimAll(Split(input, ',')))
  {
    var trimmed := TrimAll(Split(input, ','));
    TrimAllWellFormed(Split(input, ','));
    FilterSubsequence(trimmed, NonEmpty);
    var r := Filter(trimmed, NonEmpty);
    assert forall k :: 0 <= k < |r| ==> r[k] in r;
    r
  }

  /** `note?.tags.join(', ') || ''`: the stored tags of the note being
      edited, or nothing for a new note. */
  function InitialTagInput(note: Option<MessageNote>): (r: string)
    ensures note.None? ==> r == ""
    ensures note.Some? ==> ParseTags(r) == note.value.tags || exists k :: 0 <= k < |note.value.tags| && !WellFormedTag(note.value.tags[k])
  {
    match note
    case None => ""
    case Some(n) =>
      if forall k :: 0 <= k < |n.tags| ==> WellFormedTag(n.tags[k]) then
        ParseJoined(n.tags);
        Join(n.tags, ", ")
      else Join(n.tags, ", ")
  }

  /** Each tag after the first with the blank that `", "` puts before it. */
  function Padded(ts: seq<string>): (r: seq<string>)
    ensures |r| == |ts|
    ensures forall k :: 0 <= k < |ts| ==> r[k] == " " + ts[k]
  {
    seq(|ts|, k requires 0 <= k < |ts| => " " + ts[k])
  }

  /** Gluing with a prefix on the first piece prefixes the whole result. */
  lemma JoinPrefixFirst(pre: string, x: string, rest: seq<string>, glue: string)
    ensures Join([pre + x] + rest, glue) == pre + Join([x] + rest, glue)
  {
    if |rest| > 0 {
      assert ([pre + x] + rest)[1..] == rest == ([x] + rest)[1..];
    }
  }

  /** Joining with `", "` is joining with `","` after padding every tag but
      the first with one blank. */
  lemma {:induction false} JoinSpaced(tags: seq<string>)
    requires |tags| > 0
    ensures Join(tags, ", ") == Join([tags[0]] + Padded(tags[1..]), [','])
    decreases |tags|
  {
    if |tags| > 1 {
      var tail := tags[1..];
      JoinSpaced(tail);
      assert Padded(tail) == [" " + tail[0]] + Padded(tail[1..]);
      JoinPrefixFirst(" ", tail[0], Padded(tail[1..]), [',']);
      assert ([tags[0]] + Padded(tail))[1..] == Padded(tail);
      assert Join(tags, ", ") == tags[0] + ", " + Join(tail, ", ");
    }
  }

  /** The padded pieces are free of commas. */
  lemma SpacedCommaFree(tags: seq<string>)
    requires |tags| > 0
    requires forall k :: 0 <= k < |tags| ==> WellFormedTag(tags[k])
    ensures forall k :: 0 <= k < |tags| ==> ',' !in ([tags[0]] + Padded(tags[1..]))[k]
  {
    var parts := [tags[0]] + Padded(tags[1..]);
    forall k | 0 <= k < |parts| ensures ',' !in parts[k] {
      if k > 0 { assert parts[k] == " " + tags[k]; }
    }
  }

  /** Trimming the padded pieces gives the tags back. */
  lemma TrimSpaced(tags: seq<string>)
    requires |tags| > 0
    requires forall k :: 0 <= k < |tags| ==> WellFormedTag(tags[k])
    ensures TrimAll([tags[0]] + Padded(tags[1..])) == tags
  {
    var parts := [tags[0]] + Padded(tags[1..]);
    forall k | 0 <= k < |parts| ensures Trim(parts[k]) == tags[k] {
      if k > 0 {
        assert parts[k] == " " + tags[k];
        TrimLeadingBlank(tags[k]);
      }
    }
  }

  /** Splitting the `", "` join of well-formed tags on commas gives the
      padded tags. */
  lemma SplitSpaced(tags: seq<string>)
    requires |tags| > 0
    requires forall k :: 0 <= k < |tags| ==> WellFormedTag(tags[k])
    ensures Split(Join(tags, ", "), ',') == [tags[0]] + Padded(tags[1..])
  {
    JoinSpaced(tags);
    SpacedCommaFree(tags);
    SplitJoin([tags[0]] + Padded(tags[1..]), ',');
  }

  /** Well-formed tags are non-empty, so the `filter(Boolean)` keeps them all. */
  lemma WellFormedKept(tags: seq<string>)
    requires forall k :: 0 <= k < |tags| ==> WellFormedTag(tags[k])
    ensures Filter(tags, NonEmpty) == tags
  {
    forall x | x in tags ensures NonEmpty(x) {
      var k :| 0 <= k < |tags| && tags[k] == x;
    }
    FilterKeepsAll(tags, NonEmpty);
  }

  /** The `", "` join of well-formed tags splits and trims back to the tags. */
  lemma JoinedPieces(tags: seq<string>)
    requires |tags| > 0
    requires forall k :: 0 <= k < |tags| ==> WellFormedTag(tags[k])
    ensures TrimAll(Split(Join(tags, ", "), ',')) == tags
  {
    SplitSpaced(tags);
    TrimSpaced(tags);
  }

  /** Well-formed tags survive being written out as the tag input and parsed
      back. */
  lemma ParseJoined(tags: seq<string>)
    requires forall k :: 0 <= k < |tags| ==> WellFormedTag(tags[k])
    ensures ParseTags(Join(tags, ", ")) == tags
  {
    if |tags| == 0 {
      ParseEmpty();
    } else {
      ParseJoinedNonEmpty(tags);
    }
  }

  /** The same round trip for at least one tag. */
  lemma ParseJoinedNonEmpty(tags: seq<string>)
    requires |tags| > 0
    requires forall k :: 0 <= k < |tags| ==> WellFormedTag(tags[k])
    ensures ParseTags(Join(tags, ", ")) == tags
  {
    var input := Join(tags, ", ");
    JoinedPieces(tags);
    WellFormedKept(tags);
    ParseStages(input, tags);
  }

  /** The parse, stage by stage: trimmed pieces, then the non-empty ones. */
  lemma ParseStages(input: string, tags: seq<string>)
    requires TrimAll(Split(input, ',')) == tags && Filter(tags, NonEmpty) == tags
    ensures ParseTags(input) == tags
  {
  }

  /** An empty input holds no tags. */
  lemma ParseEmpty()
    ensures ParseTags("") == []
  {
    assert Split("", ',') == [""];
    assert TrimAll([""]) == [""];
    assert Filter([""], NonEmpty) == [];
  }

  /** Parsing is stable: what it produces parses to itself. */
  lemma ParseTagsStable(input: string)
    ensures ParseTags(Join(ParseTags(input), ", ")) == ParseTags(input)
  {
    ParseJoined(ParseTags(input));
  }

  /** A blank note under a fresh id and today's date. */
  function NewNote(id: string, today: string): (r: MessageNote)
    ensures r.id == id && r.date == today
    ensures r.title == "" && r.speaker == "" && r.content == "" && r.tags == []
  {
    MessageNote(id, today, "", "", "", [])
  }

  /** The form: the note being edited and the raw tag input. */
  datatype NoteFormState = NoteFormState(data: MessageNote, tagInput: string)

  /** The form as it opens: the stored note, or a blank one. */
  function OpenForm(note: Option<MessageNote>, id: string, today: string): (r: NoteFormState)
    ensures note.Some? ==> r.data == note.value
    ensures note.None? ==> r.data == NewNote(id, today) && r.tagInput == ""
    ensures r.tagInput == InitialTagInput(note)
  {
    NoteFormState(note.GetOr(NewNote(id, today)), InitialTagInput(note))
  }

  /** One input event of the form. */
  datatype NoteChange =
    | TitleInput(title: string)
    | SpeakerInput(speaker: string)
    | DateInput(date: string)
    | ContentInput(content: string)
    | TagInput(text: string)

  /** `handleChange` and `handleTagChange`: the named field takes the typed value. */
  function ChangeNote(f: NoteFormState, c: NoteChange): (r: NoteFormState)
    ensures c.TagInput? ==> r == f.(tagInput := c.text)
    ensures !c.TagInput? ==> r.tagInput == f.tagInput && r.data.tags == f.data.tags && r.data.id == f.data.id
    ensures c.TitleInput? ==> r.data == f.data.(title := c.title)
    ensures c.SpeakerInput? ==> r.data == f.data.(speaker := c.speaker)
    ensures c.DateInput? ==> r.data == f.data.(date := c.date)
    ensures c.ContentInput? ==> r.data == f.data.(content := c.content)
  {
    match c
    case TitleInput(v) => f.(data := f.data.(title := v))
    case SpeakerInput(v) => f.(data := f.data.(speaker := v))
    case DateInput(v) => f.(data := f.data.(date := v))
    case ContentInput(v) => f.(data := f.data.(content := v))
    case TagInput(v) => f.(tagInput := v)
  }

  /** `handleSave`: the form data with the parsed tags in place of the stored ones. */
  function SaveForm(f: NoteFormState): (r: MessageNote)
    ensures r == f.data.(tags := r.tags)
    ensures forall k :: 0 <= k < |r.tags| ==> WellFormedTag(r.tags[k])
    ensures forall t :: t in r.tags <==> t != "" && t in TrimAll(Split(f.tagInput, ','))
  {
    f.data.(tags := ParseTags(f.tagInput))
  }

  /** Opening a stored note and saving it untouched gives the note back,
      provided its tags are well formed. */
  lemma OpenThenSave(note: MessageNote, id: string, today: string)
    requires forall k :: 0 <= k < |note.tags| ==> WellFormedTag(note.tags[k])
    ensures SaveForm(OpenForm(Some(note), id, today)) == note
  {
    ParseJoined(note.tags);
  }

  /** A stored tag list with a badly formed tag does not survive a save
      unchanged: `" a"` comes back as `"a"`. */
  lemma BlankTagIsNormalised()
    ensures ParseTags(Join([" a"], ", ")) == ["a"]
  {
    assert Join([" a"], ", ") == " a";
    SplitJoin([" a"], ',');
    assert Join([" a"], [',']) == " a";
    TrimLeadingBlank("a");
    assert TrimAll([" a"]) == ["a"];
    FilterKeepsAll(["a"], NonEmpty);
  }
}
