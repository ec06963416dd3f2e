/** The search of the note list: `filteredNotes` keeps a note when its title
    contains the title query, case-insensitively, and it carries every
    selected tag. */
module NoteList {
  import opened Seqs
  import opened Text
  import opened App

  /** Some tag in `tags` has the given id. */
  predicate HasTagId(tags: seq<Tag>, id: string) {
    exists t :: t in tags && t.id == id
  }

  /** The condition `filteredNotes` applies to one note, with its two short cuts. */
  predicate Matches(note: Note, title: string, selectedTags: seq<Tag>) {
    && (title == "" || Includes(ToLower(note.title), ToLower(title)))
    && (|selectedTags| == 0 || forall tag :: tag in selectedTags ==> HasTagId(note.tags, tag.id))
  }

  /** The same condition without the short cuts: title containment and every selected tag (AND). */
  ghost predicate Satisfies(note: Note, title: string, selectedTags: seq<Tag>) {
    && Includes(ToLower(note.title), ToLower(title))
    && forall tag :: tag in selectedTags ==> HasTagId(note.tags, tag.id)
  }

  /** The short cuts `title === ""` and `selectedTags.length === 0` change no outcome. */
  lemma MatchesIffSatisfies(note: Note, title: string, selectedTags: seq<Tag>)
    ensures Matches(note, title, selectedTags) <==> Satisfies(note, title, selectedTags)
  {
    if title == "" {
      IncludesEmpty(ToLower(note.title));
    }
  }

  function Keeps(title: string, selectedTags: seq<Tag>): Note -> bool {
    note => Matches(note, title, selectedTags)
  }

  /** `filteredNotes`. */
  function FilteredNotes(notes: seq<Note>, title: string, selectedTags: seq<Tag>): (r: seq<Note>)
    ensures Subseq(r, notes)
    ensures forall note :: note in r <==> note in notes && Satisfies(note, title, selectedTags)
    ensures forall note :: multiset(r)[note]
                           == if Satisfies(note, title, selectedTags) then multiset(notes)[note] else 0
  {
    FilterIsSubseq(Keeps(title, selectedTags), notes);
    FilterMembers(Keeps(title, selectedTags), notes);
    assert forall note :: Keeps(title, selectedTags)(note) <==> Satisfies(note, title, selectedTags) by {
      forall note ensures Keeps(title, selectedTags)(note) <==> Satisfies(note, title, selectedTags) {
        MatchesIffSatisfies(note, title, selectedTags);
      }
    }
    assert forall note :: multiset(Filter(Keeps(title, selectedTags), notes))[note]
                          == if Satisfies(note, title, selectedTags) then multiset(notes)[note] else 0 by {
      forall note {
        FilterCount(Keeps(title, selectedTags), notes, note);
      }
    }
    Filter(Keeps(title, selectedTags), notes)
  }

  /** With an empty query and no tag selected every note is listed, in order. */
  lemma EmptySearchKeepsAll(notes: seq<Note>)
    ensures FilteredNotes(notes, "", []) == notes
  {
    FilterAll(Keeps("", []), notes);
  }

  /** Filtering the result again with the same query changes nothing. */
  lemma FilteredNotesIdempotent(notes: seq<Note>, title: string, selectedTags: seq<Tag>)
    ensures FilteredNotes(FilteredNotes(notes, title, selectedTags), title, selectedTags)
         == FilteredNotes(notes, title, selectedTags)
  {
    FilterIdempotent(Keeps(title, selectedTags), notes);
  }

  /** Selecting more tags never brings a note back: the result shrinks to a subsequence. */
  lemma MoreTagsNarrow(notes: seq<Note>, title: string, selectedTags: seq<Tag>, moreTags: seq<Tag>)
    requires forall tag :: tag in selectedTags ==> tag in moreTags
    ensures Subseq(FilteredNotes(notes, title, moreTags), FilteredNotes(notes, title, selectedTags))
  {
    forall note | note in notes && Keeps(title, moreTags)(note) ensures Keeps(title, selectedTags)(note) {
      MatchesIffSatisfies(note, title, moreTags);
      MatchesIffSatisfies(note, title, selectedTags);
    }
    FilterMonotone(Keeps(title, moreTags), Keeps(title, selectedTags), notes);
  }

  /** Adding one tag to the selection is the common case of `MoreTagsNarrow`. */
  lemma AddingTagNarrows(notes: seq<Note>, title: string, selectedTags: seq<Tag>, tag: Tag)
    ensures Subseq(FilteredNotes(notes, title, selectedTags + [tag]), FilteredNotes(notes, title, selectedTags))
  {
    MoreTagsNarrow(notes, title, selectedTags, selectedTags + [tag]);
  }

  /** A query containing the previous one (after lower-casing) can only narrow the result. */
  lemma LongerTitleNarrows(notes: seq<Note>, title: string, longer: string, selectedTags: seq<Tag>)
    requires Includes(ToLower(longer), ToLower(title))
    ensures Subseq(FilteredNotes(notes, longer, selectedTags), FilteredNotes(notes, title, selectedTags))
  {
    forall note | note in notes && Keeps(longer, selectedTags)(note) ensures Keeps(title, selectedTags)(note) {
      MatchesIffSatisfies(note, longer, selectedTags);
      MatchesIffSatisfies(note, title, selectedTags);
      IncludesTransitive(ToLower(note.title), ToLower(longer), ToLower(title));
    }
    FilterMonotone(Keeps(longer, selectedTags), Keeps(title, selectedTags), notes);
  }
}
