# Notes app data layer, search and image resolution in Dafny

A model of the non-presentational core of a browser note-taking application
written in React and TypeScript. The application keeps two collections in the
browser's local storage: notes (`RawNote`: id, title, markdown, the ids of its
tags, optional attachment keys) and tags (`Tag`: id, label). This project
models:

- **The data layer** (`src/App.tsx`, module `App` in `app.dfy`): the record
  types, the updaters the handlers hand to the state setters (`onCreateNote`,
  `onAddTag`, `onDeleteNote`, `onUpdateNote`, `updateTag`, `deleteTag`), each a
  pure function from the previous collection to the next, and the join
  `notesWithTags`, which gives every note the tag records its `tagIds` refer
  to. The two hook-held collections are a `State` record; `Dispatch` applies
  one handler call to it, and `Valid` (ids unique in each collection) is the
  invariant every handler keeps when generated ids are fresh.
- **The note-list search** (`src/Components/NoteList.tsx`, module `NoteList`):
  `filteredNotes` keeps a note when its lower-cased title contains the
  lower-cased query and it carries every selected tag.
- **Attachment image resolution** (`NoteCard` in `NoteList.tsx` and `Note` in
  `src/Components/Note.tsx`, module `Attachments`): each attachment key is
  looked up in storage and the value is kept only if it starts with
  `"data:image/"`. Both views evaluate the same expression, so one function
  `ResolveImages` models both.

Supporting modules: `Seqs` (`seqs.dfy`) gives `Map` and `Filter` for
JavaScript's `Array.prototype.map`/`filter`, a subsequence relation, and the
laws the model uses (a filter is the unique subsequence that keeps exactly the
occurrences of passing values, filters are idempotent and monotone, removing a
unique key drops one record). `Text` (`text.dfy`) gives ASCII lower-casing,
`startsWith` and `includes`. `Wrappers` (`wrappers.dfy`) gives `Option`, for
fields that may be `undefined`.

Modelling notes:

- Storage is a `map<string, string>` parameter. The id that `uuidV4()` would
  generate is a parameter of `CreateNote`. The updaters do not check that it is
  fresh, and neither does the application. Freshness is a precondition only of the
  lemmas that conclude ids stay unique.
- The joined note keeps `tagIds`: the object spread at `src/App.tsx:47` copies
  every persisted field and adds `tags`, so `Note` has both.
- `label` is a reserved word in Dafny, so the tag's label field is named
  `tagLabel`.
- `attachments || note.attachments` treats any supplied list as a
  replacement, the empty list included, because an empty array is truthy.
  `MergeAttachments` states this rule. The edit form always submits a list,
  which is empty when no file was chosen. So an edit without new files clears
  the note's attachment list.
- `filter(Boolean)` drops `null` and `""`. The model keeps that condition
  (`Truthy`). `ResolveOneKey` proves that it never drops an image, because an image
  value starts with a non-empty prefix.

## Model

| member | source | states |
|---|---|---|
| `App.WithTags` | src/App.tsx:46-49 | the joined note keeps id, title, markdown, tagIds and attachments, and its `tags` lists, in collection order, every occurrence of a collection tag whose id the note lists, and nothing else |
| `App.NotesWithTags` | src/App.tsx:44-51 | one joined note per note, in the same order, each satisfying the `WithTags` characterisation; no joined tag is absent from the tag collection or unlisted in the note's tagIds |
| `App.IsTagsOfUnique` | src/App.tsx:48 | the characterisation is complete: any list that is a subsequence of the collection and keeps exactly the listed tags' occurrences is the filtered collection |
| `App.JoinRecoversSelection` | src/App.tsx:48 | when tag ids are unique and the chosen tags are a subsequence of the collection, filtering the collection by the chosen ids gives back exactly the chosen tags |
| `App.JoinAfterDeleteTag` | src/App.tsx:104-108 | after `deleteTag(id)` no joined note shows a tag with that id, and every note still lists its old tagIds (orphan ids persist) |
| `App.CreateNote` | src/App.tsx:53-63 | appends exactly one note and leaves earlier notes unchanged; the new note has the fresh id, the form's title and markdown, the tags' ids in order, and the supplied attachments or `[]` |
| `App.CreateNoteKeepsIdsDistinct` | src/App.tsx:53-63 | if note ids are distinct and the fresh id is unused, note ids stay distinct after creation |
| `App.CreatedNoteShowsItsTags` | src/App.tsx:44-63 | a note created with tags picked in collection order from a collection with unique ids shows exactly those tags when joined |
| `App.DeleteNote` | src/App.tsx:69-73 | the result keeps the original order and holds exactly the notes whose id differs, each as often as in the input; notes with the id are gone |
| `App.DeleteNoteAbsent` | src/App.tsx:69-73 | deleting an id no note has leaves the collection unchanged |
| `App.DeleteNoteRemovesOne` | src/App.tsx:69-73 | with unique ids, deleting a present id shortens the collection by exactly one and keeps ids unique |
| `App.MergeAttachments` | src/App.tsx:83 | a supplied attachment list, empty or not, replaces the old one exactly; an absent one keeps the old one |
| `App.UpdateNote` | src/App.tsx:75-90 | length, order and ids are preserved; notes with another id pass through unchanged; a matching note keeps its id and takes title, markdown and the tags' ids from the form, and its attachments by the merge rule |
| `App.UpdateNoteUnknownId` | src/App.tsx:77-88 | updating an id that no note has leaves the collection unchanged |
| `App.UpdatedNoteShowsItsTags` | src/App.tsx:75-90 | an edited note whose new tags are picked in collection order from a collection with unique ids shows exactly those tags when joined |
| `App.AddTag` | src/App.tsx:65-67 | appends exactly the new tag at the end and leaves the others unchanged |
| `App.AddTagKeepsIdsDistinct` | src/App.tsx:65-67 | if tag ids are distinct and the new tag's id is unused, tag ids stay distinct |
| `App.RelabelTag` | src/App.tsx:92-102 | length, order and all ids are preserved; matching tags get the new label, all other tags are unchanged |
| `App.DeleteTag` | src/App.tsx:104-108 | the result keeps the original order and holds exactly the tags whose id differs, each as often as in the input; tags with the id are gone |
| `App.DeleteTagAbsent` | src/App.tsx:104-108 | deleting an id no tag has leaves the tags unchanged |
| `App.DeleteTagRemovesOne` | src/App.tsx:104-108 | with unique ids, deleting a present id shortens the tags by exactly one and keeps ids unique |
| `App.Dispatch` | src/App.tsx:41-108 | a note handler leaves the tags unchanged and a tag handler leaves the notes unchanged (in particular `deleteTag` does not touch notes) |
| `App.DispatchKeepsValid` | src/App.tsx:41-108 | every handler keeps ids unique in both collections, given fresh ids for created notes and added tags |
| `Text.LowerChar` | src/Components/NoteList.tsx:38 | lower-casing never yields an upper-case ASCII letter, yields a lower-case letter exactly for letters, shifts A-Z by 32 to a-z and leaves every other character unchanged |
| `Text.IncludesIff` | src/Components/NoteList.tsx:38 | `includes` holds exactly when the query occurs at some index of the title |
| `Text.IncludesTransitive` | src/Components/NoteList.tsx:38 | a string containing a string that contains the query contains the query |
| `NoteList.MatchesIffSatisfies` | src/Components/NoteList.tsx:37-42 | the short cuts for an empty query and an empty selection change no outcome: a note matches exactly when its lower-cased title contains the lower-cased query and it carries every selected tag id (AND, not OR) |
| `NoteList.FilteredNotes` | src/Components/NoteList.tsx:35-44 | the result is a subsequence of the notes and holds exactly the notes whose lower-cased title contains the lower-cased query and that carry every selected tag id, each as often as in the input |
| `NoteList.EmptySearchKeepsAll` | src/Components/NoteList.tsx:38-39 | an empty query with no selected tags returns all notes unchanged |
| `NoteList.FilteredNotesIdempotent` | src/Components/NoteList.tsx:36-43 | filtering the result again gives the same result |
| `NoteList.MoreTagsNarrow` | src/Components/NoteList.tsx:39-41 | a selection containing another gives a subsequence of that selection's result |
| `NoteList.AddingTagNarrows` | src/Components/NoteList.tsx:39-41 | adding a tag to the selection never enlarges the result |
| `NoteList.LongerTitleNarrows` | src/Components/NoteList.tsx:38 | a query whose lower-cased form contains the previous query's gives a subsequence of the previous result |
| `Attachments.ResolveKeys` | src/Components/Note.tsx:15-18 | never more images than keys; every image starts with `"data:image/"` and is the stored value of one of the keys |
| `Attachments.ResolveImages` | src/Components/NoteList.tsx:156-161 | undefined attachments give no images; never more images than keys; every image starts with `"data:image/"` |
| `Attachments.ResolveOneKey` | src/Components/Note.tsx:16-17 | a single key yields its stored value exactly when the key is in storage and the value starts with `"data:image/"`, and nothing otherwise |
| `Attachments.ResolveKeysConcat` | src/Components/NoteList.tsx:157-161 | resolution distributes over concatenation of key lists, so images keep the relative order of their keys |
| `Attachments.DropsUnusableKey` | src/Components/Note.tsx:16-18 | a key missing from storage, or whose value lacks the prefix, is dropped without affecting the images around it |
| `Attachments.ResolveKeysComplete` | src/Components/Note.tsx:15-18 | every key whose stored value starts with `"data:image/"` contributes that value |

## Left out

- `src/Components/UseLocalStorage.tsx`, the persisted-state hook: reading and writing `localStorage`, `JSON.parse`/`JSON.stringify` and React effects are outside the model. The two collections are plain values in `State`.
- `src/Components/NoteForm.tsx`, `handleSubmit`: asynchronous `FileReader` encoding, key generation and `localStorage.setItem`. The model takes the resulting attachment keys as input.
- `uuidV4()`: ids are parameters, and freshness is a precondition of the lemmas that need it.
- `useMemo` caching: the join and the filter are recomputed as pure functions, which gives the same values.
- Rendering, routing, markdown display, the tag pickers, `EditTagsModal` and the fallback image `src`: presentation only.
- `Text.LowerChar`: models `toLowerCase` for ASCII letters only. Other characters are left as they are, whereas JavaScript also lower-cases non-ASCII letters.
