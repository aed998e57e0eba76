# Notes app: note store and derived view

This project models the `Home` component of a small notes application
(`app/page.tsx`) and proves properties of that model. The component keeps a
list of notes, each with an id, a title, content, tags and two timestamps. It
also keeps the selected note, an edit-mode flag, a search query, a tag filter
and an edit buffer. Its event handlers create, save, delete and select notes,
and they add tags to the buffer and remove tags from it. Two derived values
drive the sidebar: the sorted list of all tags (`allTags`) and the filtered
notes, newest first (`filteredNotes`).

The model has five modules:

- `Text` models the JavaScript string operations the component uses:
  - `String.prototype.trim`, with the WhiteSpace and LineTerminator sets of
    ECMA-262 (sections 12.2 and 12.3);
  - `toLowerCase` on ASCII letters;
  - `includes`;
  - the default string order of `Array.prototype.sort`;
  - `Number.prototype.toString` on a non-negative integer, used by the ids.
- `Seqs` models `Array.prototype.filter` and `Array.from(new Set(...))`.
- `Notes` holds the `Note` record and the arrays and records each handler
  builds: the normalised tag list, the saved title, the note replaced by id,
  and the list with an id removed. It also states which collections the
  component keeps well formed.
- `Views` models `allTags` and `filteredNotes`. The sort is a stable
  insertion sort, as section 23.1.3.30 of ECMA-262 (2023 edition) requires of
  `Array.prototype.sort`.
- `Home` holds the class `NoteStore`:
  - its fields are the nine `useState` slots;
  - each React handler is one method, treated as one atomic transition;
  - the invariant `Valid` holds that ids are unique, every note is well
    formed, the tag buffer is clean and the selection is one of the notes.

Each handler's contract states the handler's whole new state. Its `modifies`
frame lists the fields it writes, and every other field stays as it was. A
further `ensures` says that the handler keeps `Valid`, under the clock
condition the code relies on.

Several definitions carry no contract of their own; the rows of the lemmas
about them state what they mean:

- `Views.MatchesSearch` is the search test of lines 42-45: the lowered query
  occurs in the lowered title, content or some lowered tag.
  `Views.EmptySearchMatches`, `Views.SearchIgnoresCase` and
  `Views.SearchFindsLiteral` state its properties.
- `Views.MatchesTag` is the tag test of line 47. No tag, or the empty tag,
  passes every note; otherwise the note must carry the tag.
  `Views.TagFilterKeepsTagged` and `Views.TagButtonShowsNotes` state its
  properties.
- `Views.Matches` joins the two tests, and `Views.Matching` is the `filter`
  of lines 41-49 over them. `Views.FilteredNotes` states what it keeps.
- `Views.InsertString` and `Views.SortStrings` are the sort of line 39.
  `Views.SortStringsSorted` and the lemmas named with it state their
  properties.
- `Views.InsertNote` and `Views.SortNotes` are the sort of line 50.
  `Views.SortNotesSorted` and the lemmas named with it state their
  properties.
- `Notes.NewNote` is the note built on lines 53-60. `Notes.FreshClockId`,
  `Notes.CreateKeepsCollection` and `Home.NoteStore.CreateNote` state its
  properties.
- `Notes.SavedNote` is the note built on lines 72-78.
  `Home.SaveWellFormed` and `Home.NoteStore.SaveNote` state its properties.

The clock is a parameter. `Date.now()` becomes the argument `now` of
`CreateNote` and `SaveNote`, and a note's id is `now` printed in decimal.

The model follows the code in three places a reader might not expect:

- `selectNote` takes a note object and does not check that the note exists.
- The tag filter `!selectedTag` treats the empty string like "no filter"
  (`Views.MatchesTag`).
- The stored collection is read with a bare `JSON.parse`, which throws on
  malformed data rather than starting empty. Persistence is not modelled;
  see below.

## Model

| member | source | states |
|---|---|---|
| `Notes.NormalizeTag` | app/page.tsx:102 | the normalised tag is the trimmed input lowered character by character: the same length, each character the lowered character of the trimmed input, with no whitespace at either end and no upper-case ASCII letter |
| `Notes.WithTag` | app/page.tsx:101-107 | the new tag list starts with the old list and is at most one longer; a tag is in it iff it was already there or it is the non-empty normalised input |
| `Notes.WithTagKeepsClean` | app/page.tsx:101-107 | adding a tag keeps a tag list free of duplicates and of empty, untrimmed or upper-case entries |
| `Notes.WithTagIdempotent` | app/page.tsx:103 | adding the same input twice gives the same list as adding it once |
| `Notes.WithTagCaseAndSpace` | app/page.tsx:101-107 | adding "Work" and then "work " to an empty list gives exactly ["work"] |
| `Notes.NormalizeWork` | app/page.tsx:102 | "Work" normalises to "work" |
| `Notes.NormalizeWorkSpace` | app/page.tsx:102 | "work " normalises to "work" |
| `Notes.TrimWorkSpace` | app/page.tsx:102 | trimming "work " gives "work" |
| `Notes.WithoutTag` | app/page.tsx:109-111 | a tag is in the result iff it was in the list and differs from the removed tag |
| `Notes.WithoutTagSplits` | app/page.tsx:110 | removing a tag from a concatenation removes it from each part, so the other tags keep their order |
| `Notes.WithoutAbsentTag` | app/page.tsx:110 | removing a tag that is not in the list returns the list unchanged |
| `Notes.WithoutTagKeepsClean` | app/page.tsx:109-111 | removing a tag keeps a clean tag list clean |
| `Notes.WithoutTagUndoesWithTag` | app/page.tsx:101-111 | removing the tag just added, when it was new, restores the earlier list |
| `Notes.SavedTitle` | app/page.tsx:74 | the saved title is non-empty and trimmed; it is the trimmed buffer title, or "Untitled" exactly when trimming leaves nothing |
| `Notes.SavedTitleIdempotent` | app/page.tsx:74 | saving an already saved title leaves it unchanged |
| `Notes.FreshClockId` | app/page.tsx:54 | a note created at an instant later than every earlier creation gets an id that no existing note has |
| `Notes.CreateKeepsCollection` | app/page.tsx:52-61 | prepending the new note keeps ids unique and every note well formed, provided the clock has passed every earlier creation |
| `Notes.ReplaceById` | app/page.tsx:80 | the mapped collection has the same length, holds the saved note wherever the id matched, and keeps every other note at its position |
| `Notes.ReplaceOnlyTheSelected` | app/page.tsx:80 | with unique ids, saving changes exactly the one position holding the selected note |
| `Notes.SaveKeepsIds` | app/page.tsx:80 | saving never changes an id, so ids stay unique |
| `Notes.ReplaceKeepsCollection` | app/page.tsx:80 | putting a well-formed note in place of the one with its id keeps the collection well formed and puts the note in it |
| `Notes.WithoutId` | app/page.tsx:86 | a note is in the result iff it was in the collection and has a different id |
| `Notes.WithoutIdSplits` | app/page.tsx:86 | deleting from a concatenation deletes from each part, so the remaining notes keep their order |
| `Notes.DeleteAbsent` | app/page.tsx:86 | deleting an id that no note has leaves the collection unchanged |
| `Notes.DeleteIdempotent` | app/page.tsx:86 | deleting the same id twice gives the same collection as deleting it once |
| `Notes.UniqueIdsCons` | app/page.tsx:61 | putting a note with a new id in front of a collection with unique ids keeps the ids unique |
| `Notes.DeleteKeepsIds` | app/page.tsx:86 | deleting keeps ids unique |
| `Notes.DeleteKeepsCollection` | app/page.tsx:86 | deleting keeps ids unique and every note well formed |
| `Text.Trim` | app/page.tsx:74 | the result is no longer than the input and has no whitespace at either end; it is empty iff the input is whitespace only |
| `Text.TrimKeepsMiddle` | app/page.tsx:74 | the trimmed string is a contiguous slice of the input, and everything before and after that slice is whitespace |
| `Text.TrimStart` | app/page.tsx:74 | the result is a suffix of the input, everything dropped is whitespace, and it does not start with whitespace |
| `Text.TrimEnd` | app/page.tsx:74 | the result is a prefix of the input, everything dropped is whitespace, and it does not end with whitespace |
| `Text.TrimStartEmpty` | app/page.tsx:74 | trimming the start leaves nothing iff the input is whitespace only |
| `Text.TrimEndEmpty` | app/page.tsx:74 | trimming the end of a string that does not start with whitespace leaves nothing iff the string is empty |
| `Text.TrimOfTrimmed` | app/page.tsx:102 | trimming a string without whitespace at either end returns it unchanged |
| `Text.TrimIdempotent` | app/page.tsx:102 | trimming twice is trimming once |
| `Text.ToLower` | app/page.tsx:43-45 | lowering keeps the length, lowers each character in place and leaves no upper-case ASCII letter |
| `Text.ToLowerOfLower` | app/page.tsx:102 | lowering a string without upper-case letters returns it unchanged |
| `Text.ToLowerKeepsTrimmed` | app/page.tsx:102 | lowering a trimmed string keeps it trimmed, so lowering after trimming still gives a trimmed tag |
| `Text.IncludesFrom` | app/page.tsx:43-45 | the search from an index succeeds iff the needle occurs at some position at or after that index |
| `Text.Includes` | app/page.tsx:43-45 | `includes` holds iff the needle occurs at some position |
| `Text.OccursLowered` | app/page.tsx:43-45 | an occurrence of the needle at a position is still an occurrence there once both strings are lowered |
| `Text.IncludesLowered` | app/page.tsx:43-45 | if the needle occurs in the string, the lowered needle occurs in the lowered string |
| `Text.IncludesEmpty` | app/page.tsx:43-45 | the empty query occurs in every string |
| `Text.LessIrreflexive` | app/page.tsx:39 | no string sorts before itself |
| `Text.LessTransitive` | app/page.tsx:39 | the string order is transitive |
| `Text.LessTotal` | app/page.tsx:39 | of two different strings one sorts before the other |
| `Text.LessAsymmetric` | app/page.tsx:39 | two strings never both sort before each other |
| `Text.DecimalString` | app/page.tsx:54 | a printed instant has at least one character |
| `Text.DecimalDigits` | app/page.tsx:54 | a printed instant consists of digits and starts with `0` only for zero |
| `Text.ParseDecimalString` | app/page.tsx:54 | reading the printed instant back gives that instant |
| `Text.DecimalStringInjective` | app/page.tsx:54 | distinct instants print as distinct ids |
| `Seqs.Filter` | app/page.tsx:41 | the filtered list is no longer than the input, holds exactly the elements passing the test, and holds each at most as often as the input does |
| `Seqs.FilterConcat` | app/page.tsx:41 | filtering a concatenation concatenates the filtered parts, so filtering keeps order |
| `Seqs.FilterKeepsAll` | app/page.tsx:41 | a filter that passes every element returns the input |
| `Seqs.FilterIdempotent` | app/page.tsx:41 | filtering twice with the same test is filtering once |
| `Seqs.FilterNoDuplicates` | app/page.tsx:110 | filtering a duplicate-free list gives a duplicate-free list |
| `Seqs.Distinct` | app/page.tsx:38 | deduplication keeps exactly the elements of the input, once each |
| `Seqs.NoDuplicatesCount` | app/page.tsx:38 | a duplicate-free list holds each element at most once |
| `Seqs.NoDuplicatesPermutation` | app/page.tsx:38-39 | a rearrangement of a duplicate-free list is duplicate free |
| `Views.FlatTags` | app/page.tsx:38 | a tag is in the flattened list iff some note carries it |
| `Views.NotLessTransitive` | app/page.tsx:39 | "not before" is transitive |
| `Views.InsertStringMultiset` | app/page.tsx:39 | one insertion step adds exactly the inserted string |
| `Views.InsertStringSorted` | app/page.tsx:39 | inserting into an ascending list keeps it ascending |
| `Views.SortStringsAscending` | app/page.tsx:39 | the tag sort yields an ascending list |
| `Views.SortStringsMultiset` | app/page.tsx:39 | the tag sort is a permutation of its input |
| `Views.SortStringsSorted` | app/page.tsx:39 | the tag sort yields an ascending permutation of its input |
| `Views.StrictlyAscending` | app/page.tsx:38-39 | an ascending list without duplicates is strictly ascending |
| `Views.AllTags` | app/page.tsx:37-39 | a tag is listed iff some note carries it, and the list is strictly ascending, so each tag appears once |
| `Views.EmptySearchMatches` | app/page.tsx:42-45 | the empty search matches every note |
| `Views.SearchIgnoresCase` | app/page.tsx:42-45 | searching for a query and for its lowered form match the same notes |
| `Views.SearchFindsLiteral` | app/page.tsx:42-45 | a query that occurs literally in a note's title, content or one of its tags matches that note, whatever the case of either |
| `Views.TagFilterKeepsTagged` | app/page.tsx:41-50 | with a non-empty tag selected, every note shown carries that tag |
| `Views.StampedMember` | app/page.tsx:50 | a note is among those saved at an instant iff it is in the list and was saved at that instant |
| `Views.StampedCons` | app/page.tsx:50 | the notes saved at an instant in a list with a note in front: that note if it matches, then those of the rest |
| `Views.InsertNoteMultiset` | app/page.tsx:50 | one insertion step adds exactly the inserted note |
| `Views.InsertNoteOrdered` | app/page.tsx:50 | inserting into a newest-first list keeps it newest first |
| `Views.InsertNoteStable` | app/page.tsx:50 | inserting a note puts it before the notes already there with the same `updatedAt` |
| `Views.SortNotesOrdered` | app/page.tsx:50 | the note sort yields a newest-first list |
| `Views.SortNotesMultiset` | app/page.tsx:50 | the note sort is a permutation of its input |
| `Views.SortNotesStable` | app/page.tsx:50 | for every instant, the notes saved then keep their input order |
| `Views.SortNotesSorted` | app/page.tsx:50 | the note sort is a newest-first permutation that keeps input order among equal `updatedAt` |
| `Views.FilteredNotes` | app/page.tsx:41-50 | a note is shown iff it is in the collection and matches both the search and the tag filter; the result is a permutation of the matching notes, newest first, with equal `updatedAt` in collection order |
| `Views.HeadStampBound` | app/page.tsx:50 | when a newest-first list holds the same notes at the instant of another list's first note, that first note is no newer than the newest-first list's first note |
| `Views.SameHead` | app/page.tsx:50 | two newest-first arrangements with the same notes per instant start with the same note |
| `Views.SameTails` | app/page.tsx:50 | dropping the same first note keeps the notes per instant equal |
| `Views.StampedHead` | app/page.tsx:50 | the first note of a list is among the notes of its own instant |
| `Views.StableOrderUnique` | app/page.tsx:50 | two newest-first arrangements with the same notes, in the same order for each instant, are equal |
| `Views.FilteredNotesUnique` | app/page.tsx:41-50 | the filtered view is the only newest-first arrangement of the matching notes that keeps collection order among equal `updatedAt` |
| `Views.EmptyFilterShowsAll` | app/page.tsx:41-50 | with an empty query and no tag, every note is shown, newest first |
| `Views.TagButtonShowsNotes` | app/page.tsx:37-50 | pressing any tag button of the sidebar with an empty search shows at least one note |
| `Views.MissingFirstChar` | app/page.tsx:43 | a needle whose first character is missing from every place it could start at does not occur |
| `Views.MeetingTitleHasNotes` | app/page.tsx:43 | "notes" occurs in the lowered title "Meeting notes" |
| `Views.ShoppingTitleMissesNotes` | app/page.tsx:43 | "notes" does not occur in the lowered title "Shopping" |
| `Views.MeetingMatchesNotes` | app/page.tsx:42-45 | the note titled "Meeting notes" matches the search "notes" |
| `Views.ShoppingMissesNotes` | app/page.tsx:42-45 | the note titled "Shopping", with tag "home" and no content, does not match the search "notes" |
| `Views.MatchingOneOfTwo` | app/page.tsx:41-49 | of two notes, when exactly one matches, the filter keeps exactly that one |
| `Views.OneOfTwoShown` | app/page.tsx:41-50 | of two notes, when exactly one matches, the view shows exactly that one |
| `Views.SearchExample` | app/page.tsx:41-50 | with the meeting note and the shopping note, the search "notes" shows exactly the meeting note |
| `Views.TagExample` | app/page.tsx:41-50 | with the meeting note and the shopping note, the tag filter "home" shows exactly the shopping note |
| `Views.SortTwo` | app/page.tsx:50 | sorting two notes puts the more recently saved one first |
| `Views.NewerOfTwoFirst` | app/page.tsx:41-50 | with no filters, the more recently saved of two notes is listed first |
| `Views.UnfilteredExample` | app/page.tsx:41-50 | with no filters, the shopping note (saved at 200) comes before the meeting note (saved at 100) |
| `Home.NoteStore.constructor` | app/page.tsx:16-24 | the store starts with no notes, no selection, editing off, empty query, no tag filter and an empty buffer, and it satisfies the invariant |
| `Home.NoteStore.CreateNote` | app/page.tsx:52-67 | prepends the note with id `now` in decimal, title "New Note", empty content and tags and both stamps `now`; selects it, loads it into the buffer and turns editing on; leaves the query, the filter and the tag input alone; keeps the invariant when `now` is later than every earlier creation |
| `Home.NoteStore.SaveNote` | app/page.tsx:69-83 | with no selection nothing changes; otherwise every note with the selected id is replaced by the selected note with the saved title, the buffer content and tags and `updatedAt = now`, that note becomes the selection and editing ends; the buffer, query and filter are untouched; keeps the invariant when `now` is not before the note's creation |
| `Home.NoteStore.Commit` | app/page.tsx:80-82 | every note with the saved note's id is replaced by it, it becomes the selection and editing ends; the invariant is kept when the note is well formed and has the id of the selected note |
| `Home.NoteStore.DeleteNote` | app/page.tsx:85-91 | removes the notes with that id; clears the selection and editing exactly when the selected note has that id, and otherwise leaves both alone; keeps the invariant |
| `Home.NoteStore.SelectNote` | app/page.tsx:93-99 | selects the note, loads its saved title, content and tags into the buffer, discarding unsaved edits, and turns editing off; keeps the invariant when the note is one of the notes |
| `Home.NoteStore.AddTag` | app/page.tsx:101-107 | the tag list becomes the list with the normalised input added, and the tag input is cleared; keeps the invariant |
| `Home.NoteStore.RemoveTag` | app/page.tsx:109-111 | the tag list loses that tag and nothing else changes; keeps the invariant |
| `Home.NoteStore.StartEditing` | app/page.tsx:259 | the Edit button turns editing on and changes nothing else |
| `Home.NoteStore.ToggleTagFilter` | app/page.tsx:151 | a tag button clears the filter if that tag is selected, and otherwise selects the tag |
| `Home.NoteStore.ClearTagFilter` | app/page.tsx:143 | the "All" button clears the tag filter |
| `Home.NoteStore.SetSearchQuery` | app/page.tsx:134 | the search box sets the query and nothing else |
| `Home.NoteStore.SetTitle` | app/page.tsx:210 | the title field sets the buffer title and nothing else |
| `Home.NoteStore.SetTagInput` | app/page.tsx:224 | the tag field sets the tag input and nothing else |
| `Home.NoteStore.SetContent` | app/page.tsx:250 | the content area sets the buffer content and nothing else |
| `Home.CreateKeepsValid` | app/page.tsx:52-67 | creating a note keeps the store invariant when the clock has passed every earlier creation |
| `Home.SaveWellFormed` | app/page.tsx:72-78 | the note a save builds keeps the selected note's id and creation time, and it is well formed in a valid store when the clock is not before its creation |
| `Home.CommitKeepsValid` | app/page.tsx:80-82 | putting a well-formed note with the selected id in place and selecting it keeps the store invariant |
| `Home.DeleteKeepsValid` | app/page.tsx:85-91 | deleting keeps the store invariant, with the selection cleared when the selected note goes |
| `Home.SelectKeepsValid` | app/page.tsx:93-99 | selecting one of the notes keeps the store invariant |
| `Home.AddTagKeepsValid` | app/page.tsx:101-107 | adding a tag keeps the store invariant |
| `Home.RemoveTagKeepsValid` | app/page.tsx:109-111 | removing a tag keeps the store invariant |
| `Home.BlankTitleSavesUntitled` | app/page.tsx:52-83 | creating a note and saving it with a whitespace-only title stores it as "Untitled", with empty content and tags, the creation instant kept and the save instant as `updatedAt` |
| `Home.SameTagTwice` | app/page.tsx:101-107 | adding two inputs that normalise to the same tag leaves that tag once |
| `Home.SwitchingDiscardsEdits` | app/page.tsx:93-99 | creating a note, editing its title and then selecting it again brings back its saved title "New Note" |
| `Home.DeleteSelected` | app/page.tsx:85-91 | creating a note in a fresh store and deleting it by its id leaves no selection, editing off and no notes |

## Left out

- Persistence (app/page.tsx:26-35): the `localStorage` read and write and `JSON.parse` / `JSON.stringify` are browser I/O. The round trip through storage is therefore not modelled. So is the exception a malformed stored value would raise.
- The clock: `Date.now()` is the parameter `now`. The three reads in `createNote` (lines 54, 58 and 59) are taken to return the same instant.
- Home.NoteStore.CreateNote: the invariant is kept only when `now` is later than every earlier creation time. The code does not guarantee it: two notes created in the same millisecond get the same id.
- Home.NoteStore.SaveNote: the invariant is kept only when `now` is not before the selected note's creation time. A clock that runs backwards would break `createdAt <= updatedAt`.
- Home.CreateKeepsValid: states the same clock condition as `CreateNote`, for the same reason.
- Unicode: `toLowerCase` is modelled on ASCII letters only. String order compares characters as code points, which agrees with the UTF-16 code-unit order of `Array.prototype.sort` only for characters in the Basic Multilingual Plane.
- Text.DecimalString: models `Number.prototype.toString` for non-negative integers only. Millisecond timestamps are far below 10^21, where exponent notation would start.
- Seqs.Distinct: states that each element of the input appears once, but not the order of first occurrence that `new Set` keeps. The sort in `allTags` discards that order.
- Timestamps are unbounded integers. The comparator `b.updatedAt - a.updatedAt` works on floating-point numbers; NaN and rounding are not modelled.
- Rendering: the JSX, the CSS modules, `handleKeyPress` (lines 113-117) and the 100-character preview (line 184) are presentation. The `Enter` key runs the same `addTag` method as the Add button.
- `NoteStore.TagUniverse` and `NoteStore.VisibleNotes` only bind `AllTags` and `FilteredNotes` to the fields, so their properties are those of the two functions.
- React semantics: each handler is one atomic step on the current state. State-update batching and stale closures are not modelled.
- Sharing: the saved note holds the same `currentTags` array as the buffer. The model works on values, so this aliasing is not visible.
