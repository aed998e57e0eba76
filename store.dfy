/** The state of the `Home` component and its event handlers, each handler
    one atomic transition of a `NoteStore`. The clock is a parameter. */
module Home {
  import opened Text
  import opened Seqs
  import opened Notes
  import opened Views

  class NoteStore {
    var notes: seq<Note>
    /** The selected note as it was when selected or last saved. */
    var selectedNote: Option<Note>
    var isEditing: bool
    var searchQuery: string
    var selectedTag: Option<string>
    // the edit buffer
    var title: string
    var content: string
    var tagInput: string
    var currentTags: seq<string>

    /** Ids are unique, every note and the tag buffer are clean, and the
        selected note is one of the notes. */
    ghost predicate Valid()
      reads this
    {
      StoreValid(notes, selectedNote, currentTags)
    }

    /** The tags offered as filters. */
    function TagUniverse(): seq<string>
      reads this
    {
      AllTags(notes)
    }

    /** The notes listed in the sidebar. */
    function VisibleNotes(): seq<Note>
      reads this
    {
      FilteredNotes(notes, searchQuery, selectedTag)
    }

    /** The initial values of the state slots. */
    constructor ()
      ensures notes == [] && selectedNote == None && !isEditing
      ensures searchQuery == [] && selectedTag == None
      ensures title == [] && content == [] && tagInput == [] && currentTags == []
      ensures Valid()
    {
      notes, selectedNote, isEditing := [], None, false;
      searchQuery, selectedTag := [], None;
      title, content, tagInput, currentTags := [], [], [], [];
    }

    /** `createNote`: prepends a fresh note made at `now`, selects it, loads
        it into the buffer and starts editing. The tag input is left alone. */
    method CreateNote(now: nat)
      modifies this`notes, this`selectedNote, this`isEditing
      modifies this`title, this`content, this`currentTags
      ensures var n := Note(DecimalString(now), "New Note", "", [], now, now);
        notes == [n] + old(notes) && selectedNote == Some(n)
      ensures title == "New Note" && content == [] && currentTags == [] && isEditing
      ensures old(Valid()) && (forall i :: 0 <= i < |old(notes)| ==> old(notes)[i].createdAt < now)
              ==> Valid()
    {
      var n := NewNote(now);
      CreateKeepsValid(notes, selectedNote, currentTags, now);
      notes, selectedNote := [n] + notes, Some(n);
      title, content, currentTags := n.title, n.content, n.tags;
      isEditing := true;
    }

    /** `saveNote`: with no selection nothing happens. Otherwise the selected
        note, with the buffer committed and `updatedAt` set to `now`, replaces
        every note with its id and becomes the selection, and editing ends. */
    method SaveNote(now: nat)
      modifies this`notes, this`selectedNote, this`isEditing
      ensures old(selectedNote).None? ==>
        notes == old(notes) && selectedNote == None && isEditing == old(isEditing)
      ensures old(selectedNote).Some? ==>
        var u := SavedNote(old(selectedNote).value, old(title), old(content), old(currentTags), now);
        notes == ReplaceById(old(notes), u.id, u) && selectedNote == Some(u) && !isEditing
      ensures old(Valid()) && (old(selectedNote).Some? ==> old(selectedNote).value.createdAt <= now)
              ==> Valid()
    {
      if selectedNote.Some? {
        var selected := selectedNote.value;
        var updated := SavedNote(selected, title, content, currentTags, now);
        SaveWellFormed(notes, selected, currentTags, title, content, now);
        Commit(updated);
      }
    }

    /** Stores `u` in place of every note with its id, selects it and ends
        editing, all in one step. */
    method Commit(u: Note)
      modifies this`notes, this`selectedNote, this`isEditing
      ensures notes == ReplaceById(old(notes), u.id, u) && selectedNote == Some(u) && !isEditing
      ensures old(Valid()) && WellFormed(u) && old(selectedNote).Some? && old(selectedNote).value.id == u.id
              ==> Valid()
    {
      CommitKeepsValid(notes, selectedNote, currentTags, u);
      notes, selectedNote, isEditing := ReplaceById(notes, u.id, u), Some(u), false;
    }

    /** `deleteNote`: drops every note with that id; the selection and
        editing are cleared only when the selected note has that id. */
    method DeleteNote(id: string)
      modifies this`notes, this`selectedNote, this`isEditing
      ensures notes == WithoutId(old(notes), id)
      ensures if old(selectedNote).Some? && old(selectedNote).value.id == id
              then selectedNote == None && !isEditing
              else selectedNote == old(selectedNote) && isEditing == old(isEditing)
      ensures old(Valid()) ==> Valid()
    {
      DeleteKeepsValid(notes, selectedNote, currentTags, id);
      notes := WithoutId(notes, id);
      if selectedNote.Some? && selectedNote.value.id == id {
        selectedNote, isEditing := None, false;
      }
    }

    /** `selectNote`: selects the note and loads its saved fields into the
        buffer, discarding unsaved edits, and shows it read-only. */
    method SelectNote(note: Note)
      modifies this`selectedNote, this`isEditing, this`title, this`content, this`currentTags
      ensures selectedNote == Some(note) && !isEditing
      ensures title == note.title && content == note.content && currentTags == note.tags
      ensures old(Valid()) && note in notes ==> Valid()
    {
      SelectKeepsValid(notes, selectedNote, currentTags, note);
      selectedNote := Some(note);
      title, content, currentTags := note.title, note.content, note.tags;
      isEditing := false;
    }

    /** `addTag`: appends the normalised tag input when it is non-empty and
        new, and always clears the input. */
    method AddTag()
      modifies this`currentTags, this`tagInput
      ensures currentTags == WithTag(old(currentTags), old(tagInput)) && tagInput == []
      ensures old(Valid()) ==> Valid()
    {
      AddTagKeepsValid(notes, selectedNote, currentTags, tagInput);
      var tag := NormalizeTag(tagInput);
      if tag != [] && tag !in currentTags {
        currentTags := currentTags + [tag];
      }
      tagInput := [];
    }

    /** `removeTag`: drops that tag from the buffer. */
    method RemoveTag(tag: string)
      modifies this`currentTags
      ensures currentTags == WithoutTag(old(currentTags), tag)
      ensures old(Valid()) ==> Valid()
    {
      RemoveTagKeepsValid(notes, selectedNote, currentTags, tag);
      currentTags := WithoutTag(currentTags, tag);
    }

    /** The Edit button: switches the selected note to the editor. */
    method StartEditing()
      modifies this`isEditing
      ensures isEditing
    {
      isEditing := true;
    }

    /** A tag filter button: selects the tag, or clears the filter when that
        tag is already selected. */
    method ToggleTagFilter(tag: string)
      modifies this`selectedTag
      ensures selectedTag == if old(selectedTag) == Some(tag) then None else Some(tag)
    {
      selectedTag := if selectedTag == Some(tag) then None else Some(tag);
    }

    /** The "All" filter button. */
    method ClearTagFilter()
      modifies this`selectedTag
      ensures selectedTag == None
    {
      selectedTag := None;
    }

    /** The search box. */
    method SetSearchQuery(query: string)
      modifies this`searchQuery
      ensures searchQuery == query
    {
      searchQuery := query;
    }

    /** The title field of the editor. */
    method SetTitle(text: string)
      modifies this`title
      ensures title == text
    {
      title := text;
    }

    /** The content area of the editor. */
    method SetContent(text: string)
      modifies this`content
      ensures content == text
    {
      content := text;
    }

    /** The tag input of the editor. */
    method SetTagInput(text: string)
      modifies this`tagInput
      ensures tagInput == text
    {
      tagInput := text;
    }
  }

  /** The invariant of `NoteStore`, on the values of its fields. */
  ghost predicate StoreValid(notes: seq<Note>, selected: Option<Note>, tags: seq<string>) {
    UniqueIds(notes) && AllWellFormed(notes) && TagsClean(tags)
    && (selected.Some? ==> selected.value in notes)
  }

  /** `createNote` keeps the invariant when the clock has moved past every
      earlier creation. */
  lemma CreateKeepsValid(notes: seq<Note>, selected: Option<Note>, tags: seq<string>, now: nat)
    ensures StoreValid(notes, selected, tags) && (forall i :: 0 <= i < |notes| ==> notes[i].createdAt < now)
            ==> StoreValid([NewNote(now)] + notes, Some(NewNote(now)), [])
  {
    if StoreValid(notes, selected, tags) && forall i :: 0 <= i < |notes| ==> notes[i].createdAt < now {
      CreateKeepsCollection(notes, now);
    }
  }

  /** The note `saveNote` stores keeps the selected note's id and creation
      time, and it is well formed when the store is valid and the clock is not
      before the note's creation. */
  lemma SaveWellFormed(notes: seq<Note>, selected: Note, tags: seq<string>, title: string,
                       content: string, now: int)
    ensures SavedNote(selected, title, content, tags, now).id == selected.id
    ensures SavedNote(selected, title, content, tags, now).createdAt == selected.createdAt
    ensures StoreValid(notes, Some(selected), tags) && selected.createdAt <= now
            ==> WellFormed(SavedNote(selected, title, content, tags, now))
  {
    if StoreValid(notes, Some(selected), tags) && selected.createdAt <= now {
      var k :| 0 <= k < |notes| && notes[k] == selected;
      assert WellFormed(notes[k]);
    }
  }

  /** Replacing the selected note by a well-formed note with its id keeps
      the invariant. */
  lemma CommitKeepsValid(notes: seq<Note>, selected: Option<Note>, tags: seq<string>, u: Note)
    ensures StoreValid(notes, selected, tags) && WellFormed(u) && selected.Some? && selected.value.id == u.id
            ==> StoreValid(ReplaceById(notes, u.id, u), Some(u), tags)
  {
    if StoreValid(notes, selected, tags) && WellFormed(u) && selected.Some? && selected.value.id == u.id {
      var k :| 0 <= k < |notes| && notes[k] == selected.value;
      ReplaceKeepsCollection(notes, k, u);
    }
  }

  /** `deleteNote` keeps the invariant, clearing the selection when the
      selected note goes. */
  lemma DeleteKeepsValid(notes: seq<Note>, selected: Option<Note>, tags: seq<string>, id: string)
    ensures StoreValid(notes, selected, tags)
            ==> StoreValid(WithoutId(notes, id),
                           if selected.Some? && selected.value.id == id then None else selected, tags)
  {
    if StoreValid(notes, selected, tags) {
      DeleteKeepsCollection(notes, id);
    }
  }

  /** `selectNote` keeps the invariant when the note is one of the notes. */
  lemma SelectKeepsValid(notes: seq<Note>, selected: Option<Note>, tags: seq<string>, note: Note)
    ensures StoreValid(notes, selected, tags) && note in notes ==> StoreValid(notes, Some(note), note.tags)
  {
    if StoreValid(notes, selected, tags) && note in notes {
      var k :| 0 <= k < |notes| && notes[k] == note;
      assert WellFormed(notes[k]);
    }
  }

  /** `addTag` keeps the invariant. */
  lemma AddTagKeepsValid(notes: seq<Note>, selected: Option<Note>, tags: seq<string>, raw: string)
    ensures StoreValid(notes, selected, tags) ==> StoreValid(notes, selected, WithTag(tags, raw))
  {
    if StoreValid(notes, selected, tags) {
      WithTagKeepsClean(tags, raw);
    }
  }

  /** `removeTag` keeps the invariant. */
  lemma RemoveTagKeepsValid(notes: seq<Note>, selected: Option<Note>, tags: seq<string>, tag: string)
    ensures StoreValid(notes, selected, tags) ==> StoreValid(notes, selected, WithoutTag(tags, tag))
  {
    if StoreValid(notes, selected, tags) {
      WithoutTagKeepsClean(tags, tag);
    }
  }

  /** Creating a note and saving it with a blank title stores it as
      "Untitled", keeping its creation time and stamping the save. */
  method BlankTitleSavesUntitled(created: nat, saved: nat, blank: string) returns (note: Note)
    requires forall k :: 0 <= k < |blank| ==> IsWhitespace(blank[k])
    ensures note.title == "Untitled" && note.content == [] && note.tags == []
    ensures note.createdAt == created && note.updatedAt == saved
  {
    var store := new NoteStore();
    store.CreateNote(created);
    store.SetTitle(blank);
    store.SaveNote(saved);
    note := store.selectedNote.value;
  }

  /** Adding two inputs that normalise to the same tag, such as "Work" and
      "work ", leaves that tag once. */
  method SameTagTwice(now: nat, first: string, second: string) returns (tags: seq<string>)
    requires NormalizeTag(first) == NormalizeTag(second) && NormalizeTag(first) != []
    ensures tags == [NormalizeTag(first)]
  {
    var store := new NoteStore();
    store.CreateNote(now);
    store.SetTagInput(first);
    store.AddTag();
    store.SetTagInput(second);
    store.AddTag();
    tags := store.currentTags;
  }

  /** Selecting a note again discards the unsaved edits to its title. */
  method SwitchingDiscardsEdits(now: nat, edit: string) returns (title: string)
    ensures title == "New Note"
  {
    var store := new NoteStore();
    store.CreateNote(now);
    var created := store.selectedNote.value;
    store.SetTitle(edit);
    store.SelectNote(created);
    title := store.title;
  }

  /** Deleting the selected note clears the selection and leaves editing. */
  method DeleteSelected(now: nat) returns (none: bool, editing: bool, count: nat)
    ensures none && !editing && count == 0
  {
    var store := new NoteStore();
    store.CreateNote(now);
    store.DeleteNote(DecimalString(now));
    none, editing, count := store.selectedNote.None?, store.isEditing, |store.notes|;
  }
}
