/** The note and tag collections the application keeps in local storage, the
    updaters its handlers pass to the state setters, and the join that gives
    each note the tag records it refers to. Every updater is a pure function
    from the previous collection to the next one. */
module App {
  import opened Wrappers
  import opened Seqs

  datatype Tag = Tag(id: string, tagLabel: string)

  /** The persisted form of a note: tags by id, attachments as storage keys. */
  datatype RawNote = RawNote(
    id: string,
    title: string,
    markdown: string,
    tagIds: seq<string>,
    attachments: Option<seq<string>>)

  /** What the create and edit forms submit. */
  datatype NoteData = NoteData(
    title: string,
    markdown: string,
    tags: seq<Tag>,
    attachments: Option<seq<string>>)

  /** A note as the views see it: the persisted record spread out, plus `tags`. */
  datatype Note = Note(
    id: string,
    title: string,
    markdown: string,
    tagIds: seq<string>,
    attachments: Option<seq<string>>,
    tags: seq<Tag>)

  function TagId(tag: Tag): string { tag.id }
  function NoteId(note: RawNote): string { note.id }

  /** The ids of the tags, in order. */
  function TagIds(tags: seq<Tag>): seq<string> { Map(TagId, tags) }
  function NoteIds(notes: seq<RawNote>): seq<string> { Map(NoteId, notes) }

  // ---------------------------------------------------------------------------
  // The join `notesWithTags`

  /** Holds of a tag whose id is among `tagIds`. */
  function IdListed(tagIds: seq<string>): Tag -> bool {
    (tag: Tag) => tag.id in tagIds
  }

  /** `tags` lists, in the collection's order, every occurrence of a collection
      tag whose id is in `tagIds`, and nothing else. */
  ghost predicate IsTagsOf(tags: seq<Tag>, tagIds: seq<string>, collection: seq<Tag>) {
    && Subseq(tags, collection)
    && forall t :: multiset(tags)[t] == if t.id in tagIds then multiset(collection)[t] else 0
  }

  /** A joined note carries the persisted fields unchanged. */
  ghost predicate SameRecord(note: Note, raw: RawNote) {
    && note.id == raw.id
    && note.title == raw.title
    && note.markdown == raw.markdown
    && note.tagIds == raw.tagIds
    && note.attachments == raw.attachments
  }

  lemma ListedTagsAreTagsOf(tagIds: seq<string>, collection: seq<Tag>)
    ensures IsTagsOf(Filter(IdListed(tagIds), collection), tagIds, collection)
  {
    FilterIsSubseq(IdListed(tagIds), collection);
    forall t ensures multiset(Filter(IdListed(tagIds), collection))[t]
                     == if t.id in tagIds then multiset(collection)[t] else 0 {
      FilterCount(IdListed(tagIds), collection, t);
    }
  }

  /** `IsTagsOf` pins the tag list down completely: it is the filter of the collection. */
  lemma IsTagsOfUnique(tags: seq<Tag>, tagIds: seq<string>, collection: seq<Tag>)
    requires IsTagsOf(tags, tagIds, collection)
    ensures tags == Filter(IdListed(tagIds), collection)
  {
    FilterUnique(IdListed(tagIds), tags, collection);
  }

  /** One note of the join: its persisted fields, plus the collection's tags
      whose ids the note lists, in collection order. */
  function WithTags(note: RawNote, collection: seq<Tag>): (r: Note)
    ensures SameRecord(r, note)
    ensures IsTagsOf(r.tags, note.tagIds, collection)
  {
    ListedTagsAreTagsOf(note.tagIds, collection);
    Note(note.id, note.title, note.markdown, note.tagIds, note.attachments,
         Filter(IdListed(note.tagIds), collection))
  }

  /** `notesWithTags`: every note, in order, with its tags resolved against the collection. */
  function NotesWithTags(notes: seq<RawNote>, tags: seq<Tag>): (r: seq<Note>)
    ensures |r| == |notes|
    ensures forall i :: 0 <= i < |notes| ==>
      SameRecord(r[i], notes[i]) && IsTagsOf(r[i].tags, notes[i].tagIds, tags)
    ensures forall i, t :: 0 <= i < |r| && t in r[i].tags ==> t in tags && t.id in r[i].tagIds
  {
    var r := Map((note: RawNote) => WithTags(note, tags), notes);
    assert forall i, t :: 0 <= i < |r| && t in r[i].tags ==> t in tags && t.id in r[i].tagIds by {
      forall i, t | 0 <= i < |r| && t in r[i].tags ensures t in tags && t.id in r[i].tagIds {
        assert multiset(r[i].tags)[t] > 0;
      }
    }
    r
  }

  /** The join puts back exactly the tags a note was given, provided they were
      picked from the collection, in its order, and tag ids are unique. */
  lemma JoinRecoversSelection(chosen: seq<Tag>, collection: seq<Tag>)
    requires Distinct(TagIds(collection)) && Subseq(chosen, collection)
    ensures Filter(IdListed(TagIds(chosen)), collection) == chosen
  {
    var ids := TagIds(chosen);
    SubseqCounts(chosen, collection);
    DistinctKeysDistinct(TagId, collection);
    forall t ensures multiset(chosen)[t] == if t.id in ids then multiset(collection)[t] else 0 {
      MapMember(TagId, chosen, t.id);
      DistinctCount(collection, t);
      if t in chosen {
        assert t.id == TagId(t);
        assert multiset(chosen)[t] > 0;
      } else if t.id in ids {
        var u :| u in chosen && TagId(u) == t.id;
        assert multiset(chosen)[u] > 0;
        assert u in collection;
        if t in collection {
          DistinctKeysInjective(TagId, collection, t, u);
        }
      }
    }
    FilterUnique(IdListed(ids), chosen, collection);
  }

  /** After `deleteTag(id)` no joined note shows a tag with that id, while the
      notes keep listing it in their `tagIds`. */
  lemma JoinAfterDeleteTag(notes: seq<RawNote>, tags: seq<Tag>, id: string)
    ensures forall i, t :: 0 <= i < |notes| && t in NotesWithTags(notes, DeleteTag(tags, id))[i].tags ==> t.id != id
    ensures forall i :: 0 <= i < |notes| ==> NotesWithTags(notes, DeleteTag(tags, id))[i].tagIds == notes[i].tagIds
  {
  }

  // ---------------------------------------------------------------------------
  // Note updaters

  /** The edit's attachment list if one is supplied, an empty one included; otherwise the previous list. */
  function MergeAttachments(supplied: Option<seq<string>>, previous: Option<seq<string>>): (r: Option<seq<string>>)
    ensures supplied.Some? ==> r == supplied
    ensures supplied.None? ==> r == previous
  {
    if supplied.Some? then supplied else previous
  }

  /** `onCreateNote`: append one note with a fresh id, the chosen tags' ids and
      the supplied attachment keys (or none). */
  function CreateNote(notes: seq<RawNote>, freshId: string, data: NoteData): (r: seq<RawNote>)
    ensures |r| == |notes| + 1 && r[..|notes|] == notes
    ensures r[|notes|].id == freshId
    ensures r[|notes|].title == data.title && r[|notes|].markdown == data.markdown
    ensures |r[|notes|].tagIds| == |data.tags|
    ensures forall i :: 0 <= i < |data.tags| ==> r[|notes|].tagIds[i] == data.tags[i].id
    ensures r[|notes|].attachments == Some(if data.attachments.Some? then data.attachments.value else [])
  {
    notes + [RawNote(freshId, data.title, data.markdown, TagIds(data.tags), Some(data.attachments.GetOr([])))]
  }

  lemma CreateNoteKeepsIdsDistinct(notes: seq<RawNote>, freshId: string, data: NoteData)
    requires Distinct(NoteIds(notes)) && freshId !in NoteIds(notes)
    ensures Distinct(NoteIds(CreateNote(notes, freshId, data)))
  {
    var note := CreateNote(notes, freshId, data)[|notes|];
    assert CreateNote(notes, freshId, data) == notes + [note];
    AppendKeepsDistinctKeys(NoteId, notes, note);
  }

  /** A note created from tags picked out of the collection shows those tags when joined. */
  lemma CreatedNoteShowsItsTags(notes: seq<RawNote>, tags: seq<Tag>, freshId: string, data: NoteData)
    requires Distinct(TagIds(tags)) && Subseq(data.tags, tags)
    ensures NotesWithTags(CreateNote(notes, freshId, data), tags)[|notes|].tags == data.tags
  {
    var created := CreateNote(notes, freshId, data);
    assert created[|notes|].tagIds == TagIds(data.tags);
    IsTagsOfUnique(NotesWithTags(created, tags)[|notes|].tags, TagIds(data.tags), tags);
    JoinRecoversSelection(data.tags, tags);
  }

  /** `onDeleteNote`: keep the notes whose id differs. */
  function DeleteNote(notes: seq<RawNote>, id: string): (r: seq<RawNote>)
    ensures Subseq(r, notes)
    ensures forall note :: note in r <==> note in notes && note.id != id
    ensures forall note :: multiset(r)[note] == if note.id != id then multiset(notes)[note] else 0
  {
    FilterIsSubseq(KeyIsNot(NoteId, id), notes);
    FilterMembers(KeyIsNot(NoteId, id), notes);
    assert forall note :: multiset(Filter(KeyIsNot(NoteId, id), notes))[note]
                          == if note.id != id then multiset(notes)[note] else 0 by {
      forall note {
        FilterCount(KeyIsNot(NoteId, id), notes, note);
      }
    }
    Filter(KeyIsNot(NoteId, id), notes)
  }

  lemma DeleteNoteAbsent(notes: seq<RawNote>, id: string)
    requires id !in NoteIds(notes)
    ensures DeleteNote(notes, id) == notes
  {
    RemoveKeyAbsent(NoteId, notes, id);
  }

  lemma DeleteNoteRemovesOne(notes: seq<RawNote>, id: string)
    requires Distinct(NoteIds(notes)) && id in NoteIds(notes)
    ensures |DeleteNote(notes, id)| == |notes| - 1
    ensures Distinct(NoteIds(DeleteNote(notes, id)))
  {
    RemoveKeyLength(NoteId, notes, id);
    FilterKeepsDistinctKeys(NoteId, KeyIsNot(NoteId, id), notes);
  }

  /** The matching note after `onUpdateNote`: same id, the form's fields, merged attachments. */
  function UpdatedNote(note: RawNote, data: NoteData): RawNote {
    RawNote(note.id, data.title, data.markdown, TagIds(data.tags),
            MergeAttachments(data.attachments, note.attachments))
  }

  /** `onUpdateNote`: rewrite the notes whose id matches, pass the others through. */
  function UpdateNote(notes: seq<RawNote>, id: string, data: NoteData): (r: seq<RawNote>)
    ensures |r| == |notes| && NoteIds(r) == NoteIds(notes)
    ensures forall i :: 0 <= i < |notes| && notes[i].id != id ==> r[i] == notes[i]
    ensures forall i :: 0 <= i < |notes| && notes[i].id == id ==>
      && r[i].id == id
      && r[i].title == data.title && r[i].markdown == data.markdown
      && r[i].tagIds == TagIds(data.tags)
      && r[i].attachments == MergeAttachments(data.attachments, notes[i].attachments)
  {
    var r := Map((note: RawNote) => if note.id == id then UpdatedNote(note, data) else note, notes);
    assert NoteIds(r) == NoteIds(notes);
    r
  }

  /** Updating an id that no note has leaves the collection as it was. */
  lemma UpdateNoteUnknownId(notes: seq<RawNote>, id: string, data: NoteData)
    requires id !in NoteIds(notes)
    ensures UpdateNote(notes, id, data) == notes
  {
    forall i | 0 <= i < |notes| ensures notes[i].id != id {
      assert NoteIds(notes)[i] == notes[i].id;
    }
  }

  /** A note edited with tags picked out of the collection shows those tags when joined. */
  lemma UpdatedNoteShowsItsTags(notes: seq<RawNote>, tags: seq<Tag>, id: string, data: NoteData, i: int)
    requires 0 <= i < |notes| && notes[i].id == id
    requires Distinct(TagIds(tags)) && Subseq(data.tags, tags)
    ensures NotesWithTags(UpdateNote(notes, id, data), tags)[i].tags == data.tags
  {
    var updated := UpdateNote(notes, id, data);
    IsTagsOfUnique(NotesWithTags(updated, tags)[i].tags, TagIds(data.tags), tags);
    JoinRecoversSelection(data.tags, tags);
  }

  // ---------------------------------------------------------------------------
  // Tag updaters

  /** `onAddTag`: append the tag the caller built. */
  function AddTag(tags: seq<Tag>, newTag: Tag): (r: seq<Tag>)
    ensures |r| == |tags| + 1 && r[..|tags|] == tags && r[|tags|] == newTag
  {
    tags + [newTag]
  }

  lemma AddTagKeepsIdsDistinct(tags: seq<Tag>, newTag: Tag)
    requires Distinct(TagIds(tags)) && newTag.id !in TagIds(tags)
    ensures Distinct(TagIds(AddTag(tags, newTag)))
  {
    AppendKeepsDistinctKeys(TagId, tags, newTag);
  }

  /** `updateTag`: relabel the tags whose id matches, pass the others through. */
  function RelabelTag(tags: seq<Tag>, id: string, tagLabel: string): (r: seq<Tag>)
    ensures |r| == |tags| && TagIds(r) == TagIds(tags)
    ensures forall i :: 0 <= i < |tags| && tags[i].id != id ==> r[i] == tags[i]
    ensures forall i :: 0 <= i < |tags| && tags[i].id == id ==> r[i] == Tag(id, tagLabel)
  {
    var r := Map((tag: Tag) => if tag.id == id then Tag(tag.id, tagLabel) else tag, tags);
    assert TagIds(r) == TagIds(tags);
    r
  }

  /** `deleteTag`: keep the tags whose id differs. */
  function DeleteTag(tags: seq<Tag>, id: string): (r: seq<Tag>)
    ensures Subseq(r, tags)
    ensures forall tag :: tag in r <==> tag in tags && tag.id != id
    ensures forall tag :: multiset(r)[tag] == if tag.id != id then multiset(tags)[tag] else 0
  {
    FilterIsSubseq(KeyIsNot(TagId, id), tags);
    FilterMembers(KeyIsNot(TagId, id), tags);
    assert forall tag :: multiset(Filter(KeyIsNot(TagId, id), tags))[tag]
                         == if tag.id != id then multiset(tags)[tag] else 0 by {
      forall tag {
        FilterCount(KeyIsNot(TagId, id), tags, tag);
      }
    }
    Filter(KeyIsNot(TagId, id), tags)
  }

  lemma DeleteTagAbsent(tags: seq<Tag>, id: string)
    requires id !in TagIds(tags)
    ensures DeleteTag(tags, id) == tags
  {
    RemoveKeyAbsent(TagId, tags, id);
  }

  lemma DeleteTagRemovesOne(tags: seq<Tag>, id: string)
    requires Distinct(TagIds(tags)) && id in TagIds(tags)
    ensures |DeleteTag(tags, id)| == |tags| - 1
    ensures Distinct(TagIds(DeleteTag(tags, id)))
  {
    RemoveKeyLength(TagId, tags, id);
    FilterKeepsDistinctKeys(TagId, KeyIsNot(TagId, id), tags);
  }

  // ---------------------------------------------------------------------------
  // The two hook-held collections and the handlers that replace them

  datatype State = State(notes: seq<RawNote>, tags: seq<Tag>)

  /** Ids are unique within each collection. */
  ghost predicate Valid(s: State) {
    Distinct(NoteIds(s.notes)) && Distinct(TagIds(s.tags))
  }

  datatype Event =
    | OnCreateNote(freshId: string, data: NoteData)
    | OnAddTag(newTag: Tag)
    | OnDeleteNote(noteId: string)
    | OnUpdateNote(noteId: string, data: NoteData)
    | OnUpdateTag(tagId: string, newLabel: string)
    | OnDeleteTag(tagId: string)
  {
    predicate ChangesTags() { OnAddTag? || OnUpdateTag? || OnDeleteTag? }
  }

  /** The generated ids an event brings in are not taken yet. */
  predicate IdsFresh(s: State, e: Event) {
    match e
    case OnCreateNote(freshId, _) => freshId !in NoteIds(s.notes)
    case OnAddTag(newTag) => newTag.id !in TagIds(s.tags)
    case _ => true
  }

  /** A handler call: each replaces one collection and leaves the other alone. */
  function Dispatch(s: State, e: Event): (r: State)
    ensures e.ChangesTags() ==> r.notes == s.notes
    ensures !e.ChangesTags() ==> r.tags == s.tags
  {
    match e
    case OnCreateNote(freshId, data) => s.(notes := CreateNote(s.notes, freshId, data))
    case OnAddTag(newTag) => s.(tags := AddTag(s.tags, newTag))
    case OnDeleteNote(id) => s.(notes := DeleteNote(s.notes, id))
    case OnUpdateNote(id, data) => s.(notes := UpdateNote(s.notes, id, data))
    case OnUpdateTag(id, newLabel) => s.(tags := RelabelTag(s.tags, id, newLabel))
    case OnDeleteTag(id) => s.(tags := DeleteTag(s.tags, id))
  }

  /** Unique ids survive every handler, given fresh generated ids. */
  lemma DispatchKeepsValid(s: State, e: Event)
    requires Valid(s) && IdsFresh(s, e)
    ensures Valid(Dispatch(s, e))
  {
    match e
    case OnCreateNote(freshId, data) => CreateNoteKeepsIdsDistinct(s.notes, freshId, data);
    case OnAddTag(newTag) => AddTagKeepsIdsDistinct(s.tags, newTag);
    case OnDeleteNote(id) => FilterKeepsDistinctKeys(NoteId, KeyIsNot(NoteId, id), s.notes);
    case OnUpdateNote(id, data) =>
    case OnUpdateTag(id, newLabel) =>
    case OnDeleteTag(id) => FilterKeepsDistinctKeys(TagId, KeyIsNot(TagId, id), s.tags);
  }
}
