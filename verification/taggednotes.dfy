/**
 * `Note` and `NotesBook` of `src/notes.py`: notes with an id, a text and
 * tags, kept per contact. The book is a Python dict from contact name to the
 * list of that contact's notes; searches walk it in insertion order, so it
 * is modelled as the sequence of (contact, notes) shelves in that order,
 * with no contact twice. Note ids come from `uuid4` and are a parameter.
 */
module TaggedNotes {
  import opened Outcomes
  import opened Strings
  import opened Seqs

  datatype Note = Note(id: string, text: string, tags: seq<string>)

  /** `Note(text, tags)` with the generated id passed in: missing or empty tags become no tags. */
  function NewNote(id: string, text: string, tags: Option<seq<string>>): (n: Note)
    ensures n.id == id && n.text == text
    ensures n.tags == [] <==> tags.None? || tags.value == []
    ensures tags.Some? ==> n.tags == tags.value
  {
    Note(id, text, if tags.Some? then tags.value else [])
  }

  datatype Shelf = Shelf(contact: string, notes: seq<Note>)

  datatype NotesBook = NotesBook(shelves: seq<Shelf>)

  /** The dict's keys, in iteration order. */
  function Contacts(b: NotesBook): (cs: seq<string>)
    ensures |cs| == |b.shelves|
    ensures forall i :: 0 <= i < |cs| ==> cs[i] == b.shelves[i].contact
  {
    seq(|b.shelves|, i requires 0 <= i < |b.shelves| => b.shelves[i].contact)
  }

  /** The dict invariant: every contact once. */
  predicate ValidNotesBook(b: NotesBook)
  {
    NoDuplicates(Contacts(b))
  }

  /** The position of `contact`'s shelf, or `|shelves|` when there is none. */
  function ShelfIndex(shelves: seq<Shelf>, contact: string): (i: nat)
    ensures i <= |shelves|
    ensures i < |shelves| ==> shelves[i].contact == contact
    ensures forall j :: 0 <= j < i ==> shelves[j].contact != contact
  {
    if shelves == [] then 0
    else if shelves[0].contact == contact then 0
    else 1 + ShelfIndex(shelves[1..], contact)
  }

  /** The first position holding `contact` is the only one that satisfies `ShelfIndex`'s contract. */
  lemma ShelfIndexUnique(shelves: seq<Shelf>, contact: string, i: nat)
    requires i <= |shelves|
    requires i < |shelves| ==> shelves[i].contact == contact
    requires forall j :: 0 <= j < i ==> shelves[j].contact != contact
    ensures ShelfIndex(shelves, contact) == i
  {
  }

  /** `get_notes(contact)`, that is `self.data.get(contact, [])`. */
  function GetNotes(b: NotesBook, contact: string): (ns: seq<Note>)
    ensures contact !in Contacts(b) ==> ns == []
    ensures forall i :: 0 <= i < |b.shelves| && b.shelves[i].contact == contact
                        && (forall j :: 0 <= j < i ==> b.shelves[j].contact != contact)
                        ==> ns == b.shelves[i].notes
  {
    var i := ShelfIndex(b.shelves, contact);
    if i < |b.shelves| then b.shelves[i].notes else []
  }

  /**
   * `self.data[contact] = notes`: an existing contact keeps its place and
   * gets the new list, a new contact goes last.
   */
  function Store(b: NotesBook, contact: string, notes: seq<Note>): (b': NotesBook)
    ensures ValidNotesBook(b) ==> ValidNotesBook(b')
    ensures GetNotes(b', contact) == notes
    ensures forall k :: k != contact ==> GetNotes(b', k) == GetNotes(b, k)
    ensures contact in Contacts(b) ==> Contacts(b') == Contacts(b)
    ensures contact !in Contacts(b) ==> Contacts(b') == Contacts(b) + [contact]
  {
    var i := ShelfIndex(b.shelves, contact);
    var b' := if i < |b.shelves| then NotesBook(b.shelves[i := Shelf(contact, notes)])
              else NotesBook(b.shelves + [Shelf(contact, notes)]);
    StoreFacts(b, contact, notes, i, b');
    b'
  }

  lemma StoreFacts(b: NotesBook, contact: string, notes: seq<Note>, i: nat, b': NotesBook)
    requires i == ShelfIndex(b.shelves, contact)
    requires b' == if i < |b.shelves| then NotesBook(b.shelves[i := Shelf(contact, notes)])
                   else NotesBook(b.shelves + [Shelf(contact, notes)])
    ensures ValidNotesBook(b) ==> ValidNotesBook(b')
    ensures GetNotes(b', contact) == notes
    ensures forall k :: k != contact ==> GetNotes(b', k) == GetNotes(b, k)
    ensures contact in Contacts(b) ==> Contacts(b') == Contacts(b)
    ensures contact !in Contacts(b) ==> Contacts(b') == Contacts(b) + [contact]
  {
    ShelfIndexUnique(b'.shelves, contact, i);
    if i < |b.shelves| {
      assert Contacts(b') == Contacts(b);
    } else {
      assert Contacts(b') == Contacts(b) + [contact];
      assert contact !in Contacts(b) by {
        forall j | 0 <= j < |b.shelves|
          ensures Contacts(b)[j] != contact
        {
        }
      }
    }
    forall k | k != contact
      ensures GetNotes(b', k) == GetNotes(b, k)
    {
      OtherContactAfterStore(b, contact, notes, i, b', k);
    }
  }

  /** Storing under `contact` does not move or change any other contact's notes. */
  lemma OtherContactAfterStore(b: NotesBook, contact: string, notes: seq<Note>, i: nat, b': NotesBook, k: string)
    requires i == ShelfIndex(b.shelves, contact)
    requires b' == if i < |b.shelves| then NotesBook(b.shelves[i := Shelf(contact, notes)])
                   else NotesBook(b.shelves + [Shelf(contact, notes)])
    requires k != contact
    ensures GetNotes(b', k) == GetNotes(b, k)
  {
    var a := ShelfIndex(b.shelves, k);
    if a < |b.shelves| {
      ShelfIndexUnique(b'.shelves, k, a);
    } else {
      ShelfIndexUnique(b'.shelves, k, |b'.shelves|);
    }
  }

  /** `add_note(contact, note)`: the note goes at the end of the contact's list, which is created if missing. */
  function AddNote(b: NotesBook, contact: string, note: Note): (b': NotesBook)
    ensures ValidNotesBook(b) ==> ValidNotesBook(b')
    ensures GetNotes(b', contact) == GetNotes(b, contact) + [note]
    ensures forall k :: k != contact ==> GetNotes(b', k) == GetNotes(b, k)
    ensures contact in Contacts(b')
  {
    Store(b, contact, GetNotes(b, contact) + [note])
  }

  /** The position of the first note whose id starts with `prefix`, or `|notes|` when none does. */
  function FirstIdMatch(notes: seq<Note>, prefix: string): (i: nat)
    ensures i <= |notes|
    ensures i < |notes| ==> IsPrefix(prefix, notes[i].id)
    ensures forall j :: 0 <= j < i ==> !IsPrefix(prefix, notes[j].id)
  {
    if notes == [] then 0
    else if IsPrefix(prefix, notes[0].id) then 0
    else 1 + FirstIdMatch(notes[1..], prefix)
  }

  /** Whether `edit_note` found a note, and the book after it. */
  datatype Edited = Edited(found: bool, book: NotesBook)

  /**
   * `edit_note(contact, note_id, new_text, new_tags)`: the first of the
   * contact's notes whose id starts with `note_id` gets the new text and
   * tags and `True` is returned; otherwise `False` and nothing changes. An
   * unknown contact is not added.
   */
  function EditNote(b: NotesBook, contact: string, prefix: string, text: string, tags: seq<string>): (e: Edited)
    ensures e.found <==> exists k :: 0 <= k < |GetNotes(b, contact)| && IsPrefix(prefix, GetNotes(b, contact)[k].id)
    ensures !e.found ==> e.book == b
    ensures e.found ==> Contacts(e.book) == Contacts(b)
    ensures e.found ==> var before, after := GetNotes(b, contact), GetNotes(e.book, contact);
                        && |after| == |before|
                        && exists i :: 0 <= i < |before| && IsPrefix(prefix, before[i].id)
                                       && (forall j :: 0 <= j < i ==> !IsPrefix(prefix, before[j].id))
                                       && after[i] == Note(before[i].id, text, tags)
                                       && (forall j :: 0 <= j < |before| && j != i ==> after[j] == before[j])
    ensures forall k :: k != contact ==> GetNotes(e.book, k) == GetNotes(b, k)
    ensures ValidNotesBook(b) ==> ValidNotesBook(e.book)
  {
    var notes := GetNotes(b, contact);
    var i := FirstIdMatch(notes, prefix);
    if i < |notes| then
      assert contact in Contacts(b);
      Edited(true, Store(b, contact, notes[i := Note(notes[i].id, text, tags)]))
    else
      Edited(false, b)
  }

  /** The test of `delete_note`'s comprehension: the note's id does not start with `prefix`. */
  function KeepTest(prefix: string): Note -> bool
  {
    (n: Note) => !IsPrefix(prefix, n.id)
  }

  /**
   * `delete_note(contact, note_id)`: the contact's notes whose id starts
   * with `note_id` are dropped and the rest kept in order; the contact is
   * stored even when it had no notes.
   */
  function DeleteNote(b: NotesBook, contact: string, prefix: string): (b': NotesBook)
    ensures GetNotes(b', contact) == Filter(GetNotes(b, contact), KeepTest(prefix))
    ensures forall k :: k != contact ==> GetNotes(b', k) == GetNotes(b, k)
    ensures contact in Contacts(b')
    ensures ValidNotesBook(b) ==> ValidNotesBook(b')
  {
    Store(b, contact, Filter(GetNotes(b, contact), KeepTest(prefix)))
  }

  /** After a delete, the contact keeps exactly its notes whose id does not start with the prefix. */
  lemma DeleteNoteMeaning(b: NotesBook, contact: string, prefix: string)
    ensures forall n :: n in GetNotes(DeleteNote(b, contact, prefix), contact)
                        <==> n in GetNotes(b, contact) && !IsPrefix(prefix, n.id)
    ensures forall n :: multiset(GetNotes(DeleteNote(b, contact, prefix), contact))[n]
                        == if IsPrefix(prefix, n.id) then 0 else multiset(GetNotes(b, contact))[n]
  {
    FilterMembers(GetNotes(b, contact), KeepTest(prefix));
    FilterMultiplicity(GetNotes(b, contact), KeepTest(prefix));
  }

  /** Every id starts with the empty prefix, so deleting with it empties the contact's list. */
  lemma DeleteEmptyPrefixClears(b: NotesBook, contact: string)
    ensures GetNotes(DeleteNote(b, contact, ""), contact) == []
  {
    var notes := GetNotes(b, contact);
    forall i | 0 <= i < |notes|
      ensures !KeepTest("")(notes[i])
    {
      EmptyIsPrefix(notes[i].id);
    }
    FilterDropsAll(notes, KeepTest(""));
  }

  /** One search result: a contact and one of its notes. */
  datatype Hit = Hit(contact: string, note: Note)

  /** A shelf's notes paired with its contact, in list order. */
  function ShelfHits(s: Shelf): (hs: seq<Hit>)
    ensures |hs| == |s.notes|
    ensures forall k :: 0 <= k < |hs| ==> hs[k] == Hit(s.contact, s.notes[k])
  {
    seq(|s.notes|, k requires 0 <= k < |s.notes| => Hit(s.contact, s.notes[k]))
  }

  /** Every (contact, note) pair in dict order, then list order: the walk both searches make. */
  function AllHits(shelves: seq<Shelf>): seq<Hit>
    decreases |shelves|
  {
    if shelves == [] then []
    else AllHits(shelves[..|shelves| - 1]) + ShelfHits(shelves[|shelves| - 1])
  }

  /** A pair is walked exactly when its note is on its contact's shelf. */
  lemma {:induction false} AllHitsMembers(shelves: seq<Shelf>, h: Hit)
    ensures h in AllHits(shelves) <==>
              exists i, k :: 0 <= i < |shelves| && 0 <= k < |shelves[i].notes|
                             && h == Hit(shelves[i].contact, shelves[i].notes[k])
    decreases |shelves|
  {
    if shelves != [] {
      var init := shelves[..|shelves| - 1];
      var last := shelves[|shelves| - 1];
      AllHitsMembers(init, h);
      if h in ShelfHits(last) {
        var k :| 0 <= k < |last.notes| && h == ShelfHits(last)[k];
        assert h == Hit(shelves[|shelves| - 1].contact, shelves[|shelves| - 1].notes[k]);
      }
      if exists i, k :: 0 <= i < |shelves| && 0 <= k < |shelves[i].notes|
                        && h == Hit(shelves[i].contact, shelves[i].notes[k]) {
        var i, k :| 0 <= i < |shelves| && 0 <= k < |shelves[i].notes|
                    && h == Hit(shelves[i].contact, shelves[i].notes[k]);
        if i < |init| {
          assert init[i] == shelves[i];
        } else {
          assert ShelfHits(last)[k] == h;
        }
      }
    }
  }

  /** `tag.lower() in (t.lower() for t in note.tags)`. */
  predicate HasTag(n: Note, tag: string)
  {
    exists t :: t in n.tags && Lower(t) == Lower(tag)
  }

  function TagTest(tag: string): Hit -> bool
  {
    (h: Hit) => HasTag(h.note, tag)
  }

  /** `keyword.lower() in note.text.lower()`. */
  function TextTest(keyword: string): Hit -> bool
  {
    (h: Hit) => Contains(Lower(keyword), Lower(h.note.text))
  }

  /**
   * The nested loop of both searches: walk the contacts in dict order and
   * each contact's notes in list order, keeping the pairs that pass `keep`.
   */
  method CollectHits(b: NotesBook, keep: Hit -> bool) returns (results: seq<Hit>)
    ensures results == Filter(AllHits(b.shelves), keep)
  {
    results := [];
    for i := 0 to |b.shelves|
      invariant results == Filter(AllHits(b.shelves[..i]), keep)
    {
      results := CollectShelf(b.shelves[i], keep, AllHits(b.shelves[..i]), results);
      assert b.shelves[..i + 1][..i] == b.shelves[..i];
    }
    assert b.shelves[..|b.shelves|] == b.shelves;
  }

  /** The inner loop of both searches: one contact's notes appended to the pairs found so far. */
  method CollectShelf(shelf: Shelf, keep: Hit -> bool, ghost done: seq<Hit>, found: seq<Hit>) returns (results: seq<Hit>)
    requires found == Filter(done, keep)
    ensures results == Filter(done + ShelfHits(shelf), keep)
  {
    results := found;
    assert done + ShelfHits(shelf)[..0] == done;
    for k := 0 to |shelf.notes|
      invariant results == Filter(done + ShelfHits(shelf)[..k], keep)
    {
      var h := Hit(shelf.contact, shelf.notes[k]);
      assert ShelfHits(shelf)[..k + 1] == ShelfHits(shelf)[..k] + [h];
      assert done + ShelfHits(shelf)[..k + 1] == (done + ShelfHits(shelf)[..k]) + [h];
      FilterSnoc(done + ShelfHits(shelf)[..k], h, keep);
      if keep(h) {
        results := results + [h];
      }
    }
    assert ShelfHits(shelf)[..|shelf.notes|] == ShelfHits(shelf);
  }

  /** `search_by_tag(tag)`: every (contact, note) pair whose note has the tag, ignoring case. */
  method SearchByTag(b: NotesBook, tag: string) returns (results: seq<Hit>)
    ensures results == Filter(AllHits(b.shelves), TagTest(tag))
    ensures forall h :: h in results <==> h in AllHits(b.shelves) && HasTag(h.note, tag)
  {
    results := CollectHits(b, TagTest(tag));
    FilterMembers(AllHits(b.shelves), TagTest(tag));
  }

  /** `search_by_text(keyword)`: every (contact, note) pair whose text contains the keyword, ignoring case. */
  method SearchByText(b: NotesBook, keyword: string) returns (results: seq<Hit>)
    ensures results == Filter(AllHits(b.shelves), TextTest(keyword))
    ensures forall h :: h in results <==> h in AllHits(b.shelves) && Contains(Lower(keyword), Lower(h.note.text))
  {
    results := CollectHits(b, TextTest(keyword));
    FilterMembers(AllHits(b.shelves), TextTest(keyword));
  }

  /** `get_all_notes()`: the whole dict, every contact mapped to its notes. */
  function GetAllNotes(b: NotesBook): (m: map<string, seq<Note>>)
    ensures forall c :: c in m <==> c in Contacts(b)
    ensures forall c :: c in m ==> m[c] == GetNotes(b, c)
  {
    map c | c in Contacts(b) :: GetNotes(b, c)
  }
}
