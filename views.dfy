/** The values the component derives from its state on every render:
    `allTags`, the sorted tag universe, and `filteredNotes`, the visible notes. */
module Views {
  import opened Text
  import opened Seqs
  import opened Notes

  // ----- allTags ------------------------------------------------------------

  /** `notes.flatMap(note => note.tags)`. */
  function FlatTags(notes: seq<Note>): (r: seq<string>)
    ensures forall t :: t in r <==> exists i :: 0 <= i < |notes| && t in notes[i].tags
  {
    if notes == [] then []
    else
      var rest := FlatTags(notes[1..]);
      assert forall i :: 1 <= i < |notes| ==> notes[i] == notes[1..][i - 1];
      notes[0].tags + rest
  }

  /** No later string sorts before an earlier one. */
  predicate Ascending(s: seq<string>) {
    forall i, j :: 0 <= i < j < |s| ==> !Less(s[j], s[i])
  }

  /** One step of the sort: `x` goes before the first string not below it. */
  function InsertString(x: string, s: seq<string>): seq<string> {
    if s == [] || !Less(s[0], x) then [x] + s
    else [s[0]] + InsertString(x, s[1..])
  }

  /** `Array.prototype.sort()` with no comparator, on strings. */
  function SortStrings(s: seq<string>): seq<string> {
    if s == [] then [] else InsertString(s[0], SortStrings(s[1..]))
  }

  /** Not below `b`, and `b` not below `c`, means not below `c`. */
  lemma NotLessTransitive(a: string, b: string, c: string)
    requires !Less(b, a) && !Less(c, b)
    ensures !Less(c, a)
  {
    if a != b && b != c {
      LessTotal(a, b);
      LessTotal(b, c);
      LessTransitive(a, b, c);
      LessAsymmetric(a, c);
    }
  }

  lemma {:induction false} InsertStringMultiset(x: string, s: seq<string>)
    ensures multiset(InsertString(x, s)) == multiset(s) + multiset{x}
  {
    if s != [] && Less(s[0], x) {
      InsertStringMultiset(x, s[1..]);
      assert s == [s[0]] + s[1..];
    }
  }

  lemma {:induction false} InsertStringSorted(x: string, s: seq<string>)
    requires Ascending(s)
    ensures Ascending(InsertString(x, s))
  {
    var r := InsertString(x, s);
    if s == [] || !Less(s[0], x) {
      forall j | 1 <= j < |r| ensures !Less(r[j], x) {
        assert r[j] == s[j - 1];
        if j > 1 {
          NotLessTransitive(x, s[0], s[j - 1]);
        }
      }
    } else {
      var tail := InsertString(x, s[1..]);
      InsertStringSorted(x, s[1..]);
      InsertStringMultiset(x, s[1..]);
      LessAsymmetric(s[0], x);
      forall j | 0 <= j < |tail| ensures !Less(tail[j], s[0]) {
        assert tail[j] in multiset(tail);
        assert tail[j] == x || tail[j] in multiset(s[1..]);
      }
    }
  }

  lemma {:induction false} SortStringsAscending(s: seq<string>)
    ensures Ascending(SortStrings(s))
  {
    if s != [] {
      SortStringsAscending(s[1..]);
      InsertStringSorted(s[0], SortStrings(s[1..]));
    }
  }

  lemma {:induction false} SortStringsMultiset(s: seq<string>)
    ensures multiset(SortStrings(s)) == multiset(s)
  {
    if s != [] {
      SortStringsMultiset(s[1..]);
      InsertStringMultiset(s[0], SortStrings(s[1..]));
      assert s == [s[0]] + s[1..];
    }
  }

  /** The sort yields an ascending rearrangement of its input. */
  lemma SortStringsSorted(s: seq<string>)
    ensures Ascending(SortStrings(s))
    ensures multiset(SortStrings(s)) == multiset(s)
  {
    SortStringsAscending(s);
    SortStringsMultiset(s);
  }

  /** Ascending without duplicates is strictly ascending. */
  lemma StrictlyAscending(s: seq<string>)
    requires Ascending(s) && NoDuplicates(s)
    ensures forall i, j :: 0 <= i < j < |s| ==> Less(s[i], s[j])
  {
    forall i, j | 0 <= i < j < |s| ensures Less(s[i], s[j]) {
      LessTotal(s[i], s[j]);
    }
  }

  /** `allTags`: every tag of some note, once each, in ascending order. */
  function AllTags(notes: seq<Note>): (r: seq<string>)
    ensures forall t :: t in r <==> exists i :: 0 <= i < |notes| && t in notes[i].tags
    ensures forall i, j :: 0 <= i < j < |r| ==> Less(r[i], r[j])
  {
    var d := Distinct(FlatTags(notes));
    var r := SortStrings(d);
    SortStringsSorted(d);
    NoDuplicatesPermutation(d, r);
    StrictlyAscending(r);
    assert forall t :: t in r <==> t in d by {
      forall t ensures t in r <==> t in d {
        assert t in r <==> t in multiset(r);
        assert t in d <==> t in multiset(d);
      }
    }
    r
  }

  // ----- filteredNotes ------------------------------------------------------

  /** The search test of `filteredNotes`: the lowered query occurs in the
      lowered title, the lowered content or some lowered tag. */
  predicate MatchesSearch(n: Note, query: string) {
    var q := ToLower(query);
    Includes(ToLower(n.title), q) || Includes(ToLower(n.content), q)
    || exists i :: 0 <= i < |n.tags| && Includes(ToLower(n.tags[i]), q)
  }

  /** The tag test of `filteredNotes`: `!selectedTag` holds for no selection
      and for the empty string, and otherwise the tag must be one of the note's. */
  predicate MatchesTag(n: Note, tag: Option<string>) {
    tag.None? || tag.value == [] || tag.value in n.tags
  }

  predicate Matches(n: Note, query: string, tag: Option<string>) {
    MatchesSearch(n, query) && MatchesTag(n, tag)
  }

  /** `notes.filter(...)`: the matching notes in collection order. */
  function Matching(notes: seq<Note>, query: string, tag: Option<string>): seq<Note> {
    Filter(notes, (n: Note) => Matches(n, query, tag))
  }

  /** The empty search matches every note. */
  lemma EmptySearchMatches(n: Note)
    ensures MatchesSearch(n, [])
  {
    IncludesEmpty(ToLower(n.title));
  }

  /** The search ignores the case of the query. */
  lemma SearchIgnoresCase(n: Note, query: string)
    ensures MatchesSearch(n, ToLower(query)) == MatchesSearch(n, query)
  {
    ToLowerOfLower(ToLower(query));
  }

  /** A query that occurs literally in the title, the content or a tag of a
      note finds that note. */
  lemma SearchFindsLiteral(n: Note, query: string)
    requires Includes(n.title, query) || Includes(n.content, query)
             || exists i :: 0 <= i < |n.tags| && Includes(n.tags[i], query)
    ensures MatchesSearch(n, query)
  {
    if Includes(n.title, query) {
      IncludesLowered(n.title, query);
    } else if Includes(n.content, query) {
      IncludesLowered(n.content, query);
    } else {
      var i :| 0 <= i < |n.tags| && Includes(n.tags[i], query);
      IncludesLowered(n.tags[i], query);
    }
  }

  /** With a non-empty tag selected, every note shown carries that tag. */
  lemma TagFilterKeepsTagged(notes: seq<Note>, query: string, tag: string)
    requires tag != []
    ensures forall n :: n in FilteredNotes(notes, query, Some(tag)) ==> tag in n.tags
  {
  }

  /** Every note is at least as recent as the ones after it. */
  predicate NewestFirst(s: seq<Note>) {
    forall i, j :: 0 <= i < j < |s| ==> s[i].updatedAt >= s[j].updatedAt
  }

  /** The notes of `s` saved at instant `t`, in the order of `s`. */
  function Stamped(s: seq<Note>, t: int): seq<Note> {
    if s == [] then [] else (if s[0].updatedAt == t then [s[0]] else []) + Stamped(s[1..], t)
  }

  lemma {:induction false} StampedMember(s: seq<Note>, t: int, x: Note)
    ensures x in Stamped(s, t) <==> x in s && x.updatedAt == t
  {
    if s != [] {
      StampedMember(s[1..], t, x);
      assert s == [s[0]] + s[1..];
    }
  }

  lemma StampedCons(x: Note, s: seq<Note>, t: int)
    ensures Stamped([x] + s, t) == (if x.updatedAt == t then [x] else []) + Stamped(s, t)
  {
    assert ([x] + s)[0] == x && ([x] + s)[1..] == s;
  }

  /** One step of the sort: `x` goes before the first note not more recent. */
  function InsertNote(x: Note, s: seq<Note>): seq<Note> {
    if s == [] || s[0].updatedAt <= x.updatedAt then [x] + s
    else [s[0]] + InsertNote(x, s[1..])
  }

  /** `.sort((a, b) => b.updatedAt - a.updatedAt)`, stable as ECMA-262
      (section 23.1.3.30, 2023 edition) requires. */
  function SortNotes(s: seq<Note>): seq<Note> {
    if s == [] then [] else InsertNote(s[0], SortNotes(s[1..]))
  }

  lemma {:induction false} InsertNoteMultiset(x: Note, s: seq<Note>)
    ensures multiset(InsertNote(x, s)) == multiset(s) + multiset{x}
  {
    if s != [] && s[0].updatedAt > x.updatedAt {
      InsertNoteMultiset(x, s[1..]);
      assert s == [s[0]] + s[1..];
    }
  }

  lemma {:induction false} InsertNoteOrdered(x: Note, s: seq<Note>)
    requires NewestFirst(s)
    ensures NewestFirst(InsertNote(x, s))
  {
    if s != [] && s[0].updatedAt > x.updatedAt {
      var tail := InsertNote(x, s[1..]);
      InsertNoteOrdered(x, s[1..]);
      InsertNoteMultiset(x, s[1..]);
      forall j | 0 <= j < |tail| ensures tail[j].updatedAt <= s[0].updatedAt {
        assert tail[j] in multiset(tail);
        assert tail[j] == x || tail[j] in multiset(s[1..]);
      }
    }
  }

  lemma {:induction false} InsertNoteStable(x: Note, s: seq<Note>, t: int)
    ensures Stamped(InsertNote(x, s), t) == Stamped([x] + s, t)
  {
    if s != [] && s[0].updatedAt > x.updatedAt {
      var tail := InsertNote(x, s[1..]);
      var here := if s[0].updatedAt == t then [s[0]] else [];
      var there := if x.updatedAt == t then [x] else [];
      assert here == [] || there == [];
      assert here + there == there + here;
      InsertNoteStable(x, s[1..], t);
      StampedCons(s[0], tail, t);
      StampedCons(x, s[1..], t);
      assert Stamped(InsertNote(x, s), t) == here + (there + Stamped(s[1..], t));
      assert s == [s[0]] + s[1..];
      StampedCons(s[0], s[1..], t);
      StampedCons(x, s, t);
      assert Stamped([x] + s, t) == there + (here + Stamped(s[1..], t));
    }
  }

  lemma {:induction false} SortNotesOrdered(s: seq<Note>)
    ensures NewestFirst(SortNotes(s))
  {
    if s != [] {
      SortNotesOrdered(s[1..]);
      InsertNoteOrdered(s[0], SortNotes(s[1..]));
    }
  }

  lemma {:induction false} SortNotesMultiset(s: seq<Note>)
    ensures multiset(SortNotes(s)) == multiset(s)
  {
    if s != [] {
      SortNotesMultiset(s[1..]);
      InsertNoteMultiset(s[0], SortNotes(s[1..]));
      assert s == [s[0]] + s[1..];
    }
  }

  lemma {:induction false} SortNotesStable(s: seq<Note>, t: int)
    ensures Stamped(SortNotes(s), t) == Stamped(s, t)
  {
    if s != [] {
      var sorted := SortNotes(s[1..]);
      SortNotesStable(s[1..], t);
      InsertNoteStable(s[0], sorted, t);
      StampedCons(s[0], sorted, t);
      StampedCons(s[0], s[1..], t);
      assert s == [s[0]] + s[1..];
    }
  }

  /** The sort yields a rearrangement that is newest first and keeps notes
      of equal `updatedAt` in their input order. */
  lemma SortNotesSorted(s: seq<Note>)
    ensures NewestFirst(SortNotes(s))
    ensures multiset(SortNotes(s)) == multiset(s)
    ensures forall t :: Stamped(SortNotes(s), t) == Stamped(s, t)
  {
    SortNotesOrdered(s);
    SortNotesMultiset(s);
    forall t ensures Stamped(SortNotes(s), t) == Stamped(s, t) {
      SortNotesStable(s, t);
    }
  }

  /** `filteredNotes`: exactly the matching notes, newest first, with notes
      of equal `updatedAt` in collection order. */
  function FilteredNotes(notes: seq<Note>, query: string, tag: Option<string>): (r: seq<Note>)
    ensures forall n :: n in r <==> n in notes && Matches(n, query, tag)
    ensures multiset(r) == multiset(Matching(notes, query, tag))
    ensures NewestFirst(r)
    ensures forall t :: Stamped(r, t) == Stamped(Matching(notes, query, tag), t)
  {
    var m := Matching(notes, query, tag);
    var r := SortNotes(m);
    SortNotesSorted(m);
    assert forall n :: n in r <==> n in m by {
      forall n ensures n in r <==> n in m {
        assert n in r <==> n in multiset(r);
        assert n in m <==> n in multiset(m);
      }
    }
    r
  }

  /** In a newest-first arrangement no note at the first note's instant
      comes from a later position with a larger stamp: the first stamp is the
      largest, so a note of `b` stamped like the head of `a` is not newer
      than the head of `b`. */
  lemma HeadStampBound(a: seq<Note>, b: seq<Note>)
    requires a != [] && b != [] && NewestFirst(b)
    requires Stamped(a, a[0].updatedAt) == Stamped(b, a[0].updatedAt)
    ensures a[0].updatedAt <= b[0].updatedAt
  {
    var ka := a[0].updatedAt;
    StampedMember(a, ka, a[0]);
    StampedMember(b, ka, a[0]);
    var i :| 0 <= i < |b| && b[i] == a[0];
    assert b[0].updatedAt >= b[i].updatedAt;
  }

  /** Two newest-first arrangements with the same notes per instant start
      with the same note. */
  lemma SameHead(a: seq<Note>, b: seq<Note>)
    requires a != [] && b != []
    requires NewestFirst(a) && NewestFirst(b)
    requires Stamped(a, a[0].updatedAt) == Stamped(b, a[0].updatedAt)
    requires Stamped(a, b[0].updatedAt) == Stamped(b, b[0].updatedAt)
    ensures a[0] == b[0]
  {
    HeadStampBound(a, b);
    HeadStampBound(b, a);
    var k := a[0].updatedAt;
    assert a == [a[0]] + a[1..] && b == [b[0]] + b[1..];
    StampedCons(a[0], a[1..], k);
    StampedCons(b[0], b[1..], k);
    assert Stamped(a, k)[0] == a[0];
    assert Stamped(b, k)[0] == b[0];
  }

  /** Dropping the same first note keeps the notes per instant equal. */
  lemma SameTails(a: seq<Note>, b: seq<Note>, t: int)
    requires a != [] && b != [] && a[0] == b[0]
    requires Stamped(a, t) == Stamped(b, t)
    ensures Stamped(a[1..], t) == Stamped(b[1..], t)
  {
    assert a == [a[0]] + a[1..] && b == [b[0]] + b[1..];
    StampedCons(a[0], a[1..], t);
    StampedCons(b[0], b[1..], t);
    if a[0].updatedAt == t {
      assert Stamped(a, t)[1..] == Stamped(a[1..], t);
      assert Stamped(b, t)[1..] == Stamped(b[1..], t);
    } else {
      assert Stamped(a, t) == Stamped(a[1..], t);
      assert Stamped(b, t) == Stamped(b[1..], t);
    }
  }

  /** The first note of a non-empty sequence is among the notes of its instant. */
  lemma StampedHead(s: seq<Note>)
    ensures s != [] ==> s[0] in Stamped(s, s[0].updatedAt)
  {
    if s != [] {
      StampedMember(s, s[0].updatedAt, s[0]);
    }
  }

  /** Newest first plus the order within each instant fix a sequence: two
      such arrangements of the same notes are equal. */
  lemma {:induction false} StableOrderUnique(a: seq<Note>, b: seq<Note>)
    requires NewestFirst(a) && NewestFirst(b)
    requires forall t :: Stamped(a, t) == Stamped(b, t)
    ensures a == b
    decreases |a| + |b|
  {
    if a == [] || b == [] {
      StampedHead(a);
      StampedHead(b);
    } else {
      SameHead(a, b);
      forall t ensures Stamped(a[1..], t) == Stamped(b[1..], t) {
        SameTails(a, b, t);
      }
      StableOrderUnique(a[1..], b[1..]);
      assert a == [a[0]] + a[1..] && b == [b[0]] + b[1..];
    }
  }

  /** `filteredNotes` is the only arrangement of the matching notes that is
      newest first and keeps collection order among equal `updatedAt`. */
  lemma FilteredNotesUnique(notes: seq<Note>, query: string, tag: Option<string>, r: seq<Note>)
    requires NewestFirst(r)
    requires forall t :: Stamped(r, t) == Stamped(Matching(notes, query, tag), t)
    ensures r == FilteredNotes(notes, query, tag)
  {
    StableOrderUnique(r, FilteredNotes(notes, query, tag));
  }

  /** With an empty query and no tag every note is shown, newest first. */
  lemma EmptyFilterShowsAll(notes: seq<Note>)
    ensures FilteredNotes(notes, "", None) == SortNotes(notes)
  {
    forall i | 0 <= i < |notes| ensures Matches(notes[i], "", None) {
      IncludesEmpty(ToLower(notes[i].title));
    }
    FilterKeepsAll(notes, (n: Note) => Matches(n, "", None));
  }

  /** Every tag button of the sidebar, pressed with an empty search, shows
      at least one note, and every note it shows carries the tag. */
  lemma TagButtonShowsNotes(notes: seq<Note>, tag: string)
    requires tag in AllTags(notes)
    ensures FilteredNotes(notes, "", Some(tag)) != []
  {
    var i :| 0 <= i < |notes| && tag in notes[i].tags;
    EmptySearchMatches(notes[i]);
    assert notes[i] in FilteredNotes(notes, "", Some(tag));
  }

  // ----- a worked example ---------------------------------------------------

  /** A needle whose first character is missing from every place it could
      start at does not occur. */
  lemma MissingFirstChar(hay: string, needle: string)
    requires needle != []
    requires forall k :: 0 <= k && k + |needle| <= |hay| ==> hay[k] != needle[0]
    ensures !Includes(hay, needle)
  {
    forall i | 0 <= i && i + |needle| <= |hay| ensures !OccursAt(hay, needle, i) {
      assert hay[i..i + |needle|][0] == hay[i];
    }
  }

  /** The meeting note: "Meeting notes", tagged "work", saved at 100. */
  predicate IsMeetingNote(a: Note) {
    a.title == "Meeting notes" && a.content == [] && a.tags == ["work"] && a.updatedAt == 100
  }

  /** The shopping note: "Shopping", tagged "home", saved at 200. */
  predicate IsShoppingNote(b: Note) {
    b.title == "Shopping" && b.content == [] && b.tags == ["home"] && b.updatedAt == 200
  }

  lemma MeetingTitleHasNotes(title: string)
    requires title == "Meeting notes"
    ensures Includes(ToLower(title), "notes")
  {
    var hay := ToLower(title);
    forall k | 0 <= k < 5 ensures hay[8 + k] == "notes"[k] {
      assert hay[8 + k] == LowerChar(title[8 + k]);
    }
    assert OccursAt(hay, "notes", 8);
  }

  lemma MeetingMatchesNotes(a: Note, query: string)
    requires IsMeetingNote(a) && query == "notes"
    ensures MatchesSearch(a, query)
  {
    assert ToLower(query) == "notes" by { ToLowerOfLower(query); }
    assert Includes(ToLower(a.title), "notes") by { MeetingTitleHasNotes(a.title); }
  }

  lemma ShoppingTitleMissesNotes(title: string)
    requires title == "Shopping"
    ensures !Includes(ToLower(title), "notes")
  {
    var hay := ToLower(title);
    forall k | 0 <= k && k + 5 <= |hay| ensures hay[k] != 'n' {
      assert hay[k] == LowerChar(title[k]);
    }
    MissingFirstChar(hay, "notes");
  }

  lemma ShoppingMissesNotes(b: Note, query: string)
    requires IsShoppingNote(b) && query == "notes"
    ensures !MatchesSearch(b, query)
  {
    assert ToLower(query) == "notes" by { ToLowerOfLower(query); }
    assert !Includes(ToLower(b.title), "notes") by { ShoppingTitleMissesNotes(b.title); }
    assert |ToLower(b.tags[0])| == 4;
  }

  /** Of two notes exactly the one that matches is shown. */
  lemma OneOfTwoShown(a: Note, b: Note, query: string, tag: Option<string>)
    requires Matches(a, query, tag) != Matches(b, query, tag)
    ensures FilteredNotes([a, b], query, tag) == if Matches(a, query, tag) then [a] else [b]
  {
    MatchingOneOfTwo(a, b, query, tag);
    var m := Matching([a, b], query, tag);
    assert SortNotes(m) == InsertNote(m[0], []);
  }

  lemma MatchingOneOfTwo(a: Note, b: Note, query: string, tag: Option<string>)
    requires Matches(a, query, tag) != Matches(b, query, tag)
    ensures Matching([a, b], query, tag) == if Matches(a, query, tag) then [a] else [b]
  {
    var p := (n: Note) => Matches(n, query, tag);
    FilterConcat([a], [b], p);
    assert [a, b] == [a] + [b];
  }

  /** Searching "notes" shows only the meeting note. */
  lemma SearchExample(a: Note, b: Note)
    requires IsMeetingNote(a) && IsShoppingNote(b)
    ensures FilteredNotes([a, b], "notes", None) == [a]
  {
    MeetingMatchesNotes(a, "notes");
    ShoppingMissesNotes(b, "notes");
    OneOfTwoShown(a, b, "notes", None);
  }

  /** The "home" filter shows only the shopping note. */
  lemma TagExample(a: Note, b: Note)
    requires IsMeetingNote(a) && IsShoppingNote(b)
    ensures FilteredNotes([a, b], "", Some("home")) == [b]
  {
    IncludesEmpty(ToLower(b.title));
    assert !MatchesTag(a, Some("home"));
    OneOfTwoShown(a, b, "", Some("home"));
  }

  /** Without filters the newer of two notes is listed first. */
  lemma NewerOfTwoFirst(a: Note, b: Note)
    requires a.updatedAt < b.updatedAt
    ensures FilteredNotes([a, b], "", None) == [b, a]
  {
    EmptyFilterShowsAll([a, b]);
    SortTwo(a, b);
  }

  lemma SortTwo(a: Note, b: Note)
    requires a.updatedAt < b.updatedAt
    ensures SortNotes([a, b]) == [b, a]
  {
    assert [a, b][1..] == [b];
    assert SortNotes([b]) == [b];
    assert InsertNote(a, [b]) == [b] + InsertNote(a, []);
  }

  /** Without filters the newer shopping note comes first. */
  lemma UnfilteredExample(a: Note, b: Note)
    requires IsMeetingNote(a) && IsShoppingNote(b)
    ensures FilteredNotes([a, b], "", None) == [b, a]
  {
    NewerOfTwoFirst(a, b);
  }
}
