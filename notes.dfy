/** The `Note` record and the pure parts of the component's handlers: the new
    arrays and records that `createNote`, `saveNote`, `deleteNote`, `addTag`
    and `removeTag` build with spread, `map` and `filter`. */
module Notes {
  import opened Text
  import opened Seqs

  datatype Option<T> = None | Some(value: T)

  /** A note as the component stores it; timestamps are milliseconds. */
  datatype Note = Note(
    id: string,
    title: string,
    content: string,
    tags: seq<string>,
    createdAt: int,
    updatedAt: int)

  // ----- tags -------------------------------------------------------------

  /** What `addTag` makes of the tag input: trimmed, then lowered. */
  function NormalizeTag(raw: string): (t: string)
    ensures IsTrimmed(t) && IsLower(t)
    ensures |t| == |Trim(raw)|
    ensures forall k :: 0 <= k < |t| ==> t[k] == LowerChar(Trim(raw)[k])
  {
    ToLowerKeepsTrimmed(Trim(raw));
    ToLower(Trim(raw))
  }

  /** A tag as `addTag` can produce it: non-empty, trimmed and lower case. */
  predicate IsCleanTag(t: string) {
    t != [] && IsTrimmed(t) && IsLower(t)
  }

  /** A tag list without duplicates whose every entry is clean. */
  predicate TagsClean(tags: seq<string>) {
    NoDuplicates(tags) && forall i :: 0 <= i < |tags| ==> IsCleanTag(tags[i])
  }

  /** The tag list after `addTag`: the old list, followed by the normalised
      input when that is non-empty and new. */
  function WithTag(tags: seq<string>, raw: string): (r: seq<string>)
    ensures |tags| <= |r| <= |tags| + 1 && r[..|tags|] == tags
    ensures forall t :: t in r <==> t in tags || (t == NormalizeTag(raw) && t != [])
  {
    var t := NormalizeTag(raw);
    if t != [] && t !in tags then tags + [t] else tags
  }

  /** `addTag` keeps a tag list free of duplicates and of empty, untrimmed or
      upper-case entries. */
  lemma WithTagKeepsClean(tags: seq<string>, raw: string)
    requires TagsClean(tags)
    ensures TagsClean(WithTag(tags, raw))
  {
    var t := NormalizeTag(raw);
    if t != [] && t !in tags {
      var r := tags + [t];
      assert IsCleanTag(t);
      forall i | 0 <= i < |r| ensures IsCleanTag(r[i]) {
        if i < |tags| {
          assert r[i] == tags[i];
        }
      }
      forall i, j | 0 <= i < j < |r| ensures r[i] != r[j] {
        assert r[i] == tags[i];
        if j < |tags| {
          assert r[j] == tags[j];
        }
      }
    }
  }

  /** Adding the same input twice adds it once. */
  lemma WithTagIdempotent(tags: seq<string>, raw: string)
    ensures WithTag(WithTag(tags, raw), raw) == WithTag(tags, raw)
  {
    var t := NormalizeTag(raw);
    assert t != [] ==> t in WithTag(tags, raw);
  }

  lemma TrimWorkSpace()
    ensures Trim("work ") == "work"
  {
    var s := "work ";
    assert TrimStart(s) == s;
    assert IsWhitespace(s[4]);
    var w := s[..4];
    assert w == "work";
    assert w[3] == 'k';
    assert TrimEnd(w) == w;
  }

  lemma NormalizeWork()
    ensures NormalizeTag("Work") == "work"
  {
    TrimOfTrimmed("Work");
    assert "Work"[1..] == "ork";
    ToLowerOfLower("ork");
    assert ToLower("Work") == [LowerChar('W')] + "ork";
  }

  lemma NormalizeWorkSpace()
    ensures NormalizeTag("work ") == "work"
  {
    TrimWorkSpace();
    ToLowerOfLower("work");
  }

  /** "Work" and then "work " give the single tag "work". */
  lemma WithTagCaseAndSpace()
    ensures WithTag(WithTag([], "Work"), "work ") == ["work"]
  {
    NormalizeWork();
    var first := WithTag([], "Work");
    assert first == [] + ["work"];
    NormalizeWorkSpace();
    assert first[0] == "work";
  }

  /** The tag list after `removeTag`: every other tag, in order. */
  function WithoutTag(tags: seq<string>, tag: string): (r: seq<string>)
    ensures forall t :: t in r <==> t in tags && t != tag
  {
    Filter(tags, t => t != tag)
  }

  /** `removeTag` keeps the other tags in their order: removing from a
      concatenation removes from each part. */
  lemma WithoutTagSplits(a: seq<string>, b: seq<string>, tag: string)
    ensures WithoutTag(a + b, tag) == WithoutTag(a, tag) + WithoutTag(b, tag)
  {
    FilterConcat(a, b, t => t != tag);
  }

  /** Removing a tag that is not there changes nothing. */
  lemma WithoutAbsentTag(tags: seq<string>, tag: string)
    requires tag !in tags
    ensures WithoutTag(tags, tag) == tags
  {
    FilterKeepsAll(tags, t => t != tag);
  }

  /** `removeTag` keeps a clean tag list clean. */
  lemma WithoutTagKeepsClean(tags: seq<string>, tag: string)
    requires TagsClean(tags)
    ensures TagsClean(WithoutTag(tags, tag))
  {
    var r := WithoutTag(tags, tag);
    FilterNoDuplicates(tags, t => t != tag);
    forall i | 0 <= i < |r| ensures IsCleanTag(r[i]) {
      assert r[i] in tags;
    }
  }

  /** Removing the tag just added restores the list the tag was added to. */
  lemma WithoutTagUndoesWithTag(tags: seq<string>, raw: string)
    requires NormalizeTag(raw) !in tags
    ensures WithoutTag(WithTag(tags, raw), NormalizeTag(raw)) == tags
  {
    var t := NormalizeTag(raw);
    var p := (x: string) => x != t;
    WithoutAbsentTag(tags, t);
    if t != [] {
      FilterConcat(tags, [t], p);
      assert Filter([t], p) == [];
      assert tags + [] == tags;
    }
  }

  // ----- titles -------------------------------------------------------------

  /** The title `saveNote` stores: the trimmed buffer title, or "Untitled"
      when nothing is left after trimming. */
  function SavedTitle(title: string): (r: string)
    ensures r != [] && IsTrimmed(r)
    ensures r == Trim(title) || (Trim(title) == [] && r == "Untitled")
  {
    var t := Trim(title);
    if t != [] then t else "Untitled"
  }

  /** Saving a saved title again leaves it as it is. */
  lemma SavedTitleIdempotent(title: string)
    ensures SavedTitle(SavedTitle(title)) == SavedTitle(title)
  {
    TrimOfTrimmed(SavedTitle(title));
  }

  // ----- the collection -----------------------------------------------------

  /** No two notes share an id. */
  predicate UniqueIds(notes: seq<Note>) {
    forall i, j :: 0 <= i < j < |notes| ==> notes[i].id != notes[j].id
  }

  /** The id is the creation instant printed in decimal, as `createNote`
      makes it. */
  predicate IdFromClock(n: Note) {
    n.createdAt >= 0 && n.id == DecimalString(n.createdAt)
  }

  /** What every note the component makes satisfies. */
  predicate WellFormed(n: Note) {
    TagsClean(n.tags) && n.createdAt <= n.updatedAt && IdFromClock(n)
  }

  predicate AllWellFormed(notes: seq<Note>) {
    forall i :: 0 <= i < |notes| ==> WellFormed(notes[i])
  }

  /** The note `createNote` makes at instant `now`. */
  function NewNote(now: nat): Note {
    Note(DecimalString(now), "New Note", "", [], now, now)
  }

  /** A note created after every note in the collection gets an id no note
      has: ids are printed instants, and distinct instants print differently. */
  lemma FreshClockId(notes: seq<Note>, now: nat)
    requires forall i :: 0 <= i < |notes| ==> IdFromClock(notes[i]) && notes[i].createdAt < now
    ensures forall i :: 0 <= i < |notes| ==> notes[i].id != NewNote(now).id
  {
    forall i | 0 <= i < |notes| ensures notes[i].id != DecimalString(now) {
      if notes[i].id == DecimalString(now) {
        DecimalStringInjective(notes[i].createdAt, now);
      }
    }
  }

  /** Prepending the new note keeps the collection well formed, provided the
      clock has moved past every earlier creation. */
  lemma CreateKeepsCollection(notes: seq<Note>, now: nat)
    requires UniqueIds(notes) && AllWellFormed(notes)
    requires forall i :: 0 <= i < |notes| ==> notes[i].createdAt < now
    ensures UniqueIds([NewNote(now)] + notes) && AllWellFormed([NewNote(now)] + notes)
  {
    FreshClockId(notes, now);
    var r := [NewNote(now)] + notes;
    forall i, j | 0 <= i < j < |r| ensures r[i].id != r[j].id {
      if i > 0 {
        assert r[i] == notes[i - 1] && r[j] == notes[j - 1];
      } else {
        assert r[j] == notes[j - 1];
      }
    }
  }

  /** The collection after `saveNote`: every note with id `id` replaced by
      `u`, all others unchanged, in the same order. */
  function ReplaceById(notes: seq<Note>, id: string, u: Note): (r: seq<Note>)
    ensures |r| == |notes|
    ensures forall i :: 0 <= i < |notes| ==> r[i] == (if notes[i].id == id then u else notes[i])
  {
    if notes == [] then []
    else [if notes[0].id == id then u else notes[0]] + ReplaceById(notes[1..], id, u)
  }

  /** The note `saveNote` stores: the selected note with the buffer committed
      and the update stamp set to `now`. */
  function SavedNote(selected: Note, title: string, content: string, tags: seq<string>, now: int): Note {
    selected.(title := SavedTitle(title), content := content, tags := tags, updatedAt := now)
  }

  /** Saving never changes an id, so ids stay unique. */
  lemma SaveKeepsIds(notes: seq<Note>, u: Note)
    requires UniqueIds(notes)
    ensures UniqueIds(ReplaceById(notes, u.id, u))
  {
    var r := ReplaceById(notes, u.id, u);
    forall i, j | 0 <= i < j < |r| ensures r[i].id != r[j].id {
      assert r[i].id == notes[i].id && r[j].id == notes[j].id;
    }
  }

  /** Putting a well-formed note in place of the one with its id keeps the
      collection well formed, and the note is then in it. */
  lemma ReplaceKeepsCollection(notes: seq<Note>, k: nat, u: Note)
    requires UniqueIds(notes) && AllWellFormed(notes)
    requires k < |notes| && notes[k].id == u.id && WellFormed(u)
    ensures var r := ReplaceById(notes, u.id, u);
      UniqueIds(r) && AllWellFormed(r) && u in r
  {
    var r := ReplaceById(notes, u.id, u);
    assert r[k] == u;
    forall i | 0 <= i < |r| ensures WellFormed(r[i]) {
      if notes[i].id != u.id {
        assert r[i] == notes[i];
      }
    }
    SaveKeepsIds(notes, u);
  }

  /** With unique ids, saving changes exactly the one note that has the id. */
  lemma ReplaceOnlyTheSelected(notes: seq<Note>, k: nat, u: Note)
    requires UniqueIds(notes) && k < |notes| && u.id == notes[k].id
    ensures ReplaceById(notes, u.id, u) == notes[k := u]
  {
    var r := ReplaceById(notes, u.id, u);
    forall i | 0 <= i < |r| ensures r[i] == notes[k := u][i] {
      if i != k {
        assert notes[i].id != notes[k].id;
      }
    }
  }

  /** The collection after `deleteNote`: the notes without that id, in order. */
  function WithoutId(notes: seq<Note>, id: string): (r: seq<Note>)
    ensures forall n :: n in r <==> n in notes && n.id != id
  {
    Filter(notes, (n: Note) => n.id != id)
  }

  /** `deleteNote` keeps the other notes in their order: deleting from a
      concatenation deletes from each part. */
  lemma WithoutIdSplits(a: seq<Note>, b: seq<Note>, id: string)
    ensures WithoutId(a + b, id) == WithoutId(a, id) + WithoutId(b, id)
  {
    FilterConcat(a, b, (n: Note) => n.id != id);
  }

  /** Deleting an id that no note has changes nothing. */
  lemma DeleteAbsent(notes: seq<Note>, id: string)
    requires forall i :: 0 <= i < |notes| ==> notes[i].id != id
    ensures WithoutId(notes, id) == notes
  {
    FilterKeepsAll(notes, (n: Note) => n.id != id);
  }

  /** Deleting twice is deleting once. */
  lemma DeleteIdempotent(notes: seq<Note>, id: string)
    ensures WithoutId(WithoutId(notes, id), id) == WithoutId(notes, id)
  {
    FilterIdempotent(notes, (n: Note) => n.id != id);
  }

  /** A note whose id no other note has can join a collection of unique ids. */
  lemma UniqueIdsCons(x: Note, notes: seq<Note>)
    requires UniqueIds(notes)
    requires forall i :: 0 <= i < |notes| ==> notes[i].id != x.id
    ensures UniqueIds([x] + notes)
  {
    var r := [x] + notes;
    forall i, j | 0 <= i < j < |r| ensures r[i].id != r[j].id {
      assert r[j] == notes[j - 1];
      if i > 0 {
        assert r[i] == notes[i - 1];
      }
    }
  }

  /** Deleting keeps ids unique. */
  lemma {:induction false} DeleteKeepsIds(notes: seq<Note>, id: string)
    requires UniqueIds(notes)
    ensures UniqueIds(WithoutId(notes, id))
  {
    if notes != [] {
      var rest := notes[1..];
      var r := WithoutId(rest, id);
      assert UniqueIds(rest) by {
        forall i, j | 0 <= i < j < |rest| ensures rest[i].id != rest[j].id {
          assert rest[i] == notes[i + 1] && rest[j] == notes[j + 1];
        }
      }
      DeleteKeepsIds(rest, id);
      if notes[0].id != id {
        forall i | 0 <= i < |r| ensures r[i].id != notes[0].id {
          assert r[i] in rest;
        }
        UniqueIdsCons(notes[0], r);
        assert WithoutId(notes, id) == [notes[0]] + r;
      } else {
        assert WithoutId(notes, id) == [] + r;
      }
    }
  }

  /** Deleting keeps a collection of unique ids and well-formed notes so. */
  lemma DeleteKeepsCollection(notes: seq<Note>, id: string)
    requires UniqueIds(notes) && AllWellFormed(notes)
    ensures UniqueIds(WithoutId(notes, id)) && AllWellFormed(WithoutId(notes, id))
  {
    var r := WithoutId(notes, id);
    forall i | 0 <= i < |r| ensures WellFormed(r[i]) {
      var j :| 0 <= j < |notes| && notes[j] == r[i];
      assert WellFormed(notes[j]);
    }
    DeleteKeepsIds(notes, id);
  }
}
