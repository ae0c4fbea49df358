/**
 * The index-based `NoteBook` of `src/note.py`: plain-text notes kept per
 * contact in a dict, addressed by their position in the contact's list.
 * Nothing iterates over the dict, so it is modelled as a map.
 */
module IndexedNotes {
  import opened Strings
  import opened Seqs

  datatype Note = Note(text: string)

  datatype NoteBook = NoteBook(notes: map<string, seq<Note>>)

  /** `list_notes(contact_name)`: the contact's notes, or none for an unknown contact. */
  function ListNotes(b: NoteBook, contact: string): (ns: seq<Note>)
    ensures contact !in b.notes ==> ns == []
    ensures contact in b.notes ==> ns == b.notes[contact]
  {
    if contact in b.notes then b.notes[contact] else []
  }

  /** The new note and the book after `add_note`. */
  datatype Added = Added(note: Note, book: NoteBook)

  /**
   * `add_note(contact_name, text)`: a note with the text goes at the end of
   * the contact's list, which is created if missing, and is returned.
   */
  function AddNote(b: NoteBook, contact: string, text: string): (a: Added)
    ensures a.note.text == text
    ensures contact in a.book.notes
    ensures ListNotes(a.book, contact) == ListNotes(b, contact) + [a.note]
    ensures forall k :: k != contact ==> ListNotes(a.book, k) == ListNotes(b, k)
    ensures a.book.notes.Keys == b.notes.Keys + {contact}
  {
    var n := Note(text);
    Added(n, NoteBook(b.notes[contact := ListNotes(b, contact) + [n]]))
  }

  /** The comprehension test of `search_notes`. */
  function MentionTest(keyword: string): Note -> bool
  {
    (n: Note) => Contains(Lower(keyword), Lower(n.text))
  }

  /**
   * `search_notes(contact_name, keyword)`: the contact's notes whose text
   * contains the keyword, ignoring case, in list order.
   */
  function SearchNotes(b: NoteBook, contact: string, keyword: string): (found: seq<Note>)
    ensures |found| <= |ListNotes(b, contact)|
    ensures forall n :: n in found <==> n in ListNotes(b, contact) && Contains(Lower(keyword), Lower(n.text))
    ensures IsSubsequence(found, ListNotes(b, contact))
  {
    FilterMembers(ListNotes(b, contact), MentionTest(keyword));
    FilterIsSubsequence(ListNotes(b, contact), MentionTest(keyword));
    Filter(ListNotes(b, contact), MentionTest(keyword))
  }

  /** Each matching note is found as often as the contact has it. */
  lemma SearchNotesMultiplicity(b: NoteBook, contact: string, keyword: string)
    ensures forall n :: multiset(SearchNotes(b, contact, keyword))[n]
                        == if Contains(Lower(keyword), Lower(n.text)) then multiset(ListNotes(b, contact))[n] else 0
  {
    FilterMultiplicity(ListNotes(b, contact), MentionTest(keyword));
  }

  /** A `True`/`False` answer and the book after an edit or delete. */
  datatype Changed = Changed(done: bool, book: NoteBook)

  predicate InRange(b: NoteBook, contact: string, index: int)
  {
    0 <= index < |ListNotes(b, contact)|
  }

  /**
   * `edit_note(contact_name, index, new_text)`: an index inside the
   * contact's list gets the new text and `True` is returned; any other
   * index, negative ones included, returns `False` and changes nothing.
   */
  function EditNote(b: NoteBook, contact: string, index: int, text: string): (c: Changed)
    ensures c.done <==> InRange(b, contact, index)
    ensures !c.done ==> c.book == b
    ensures c.done ==> var before, after := ListNotes(b, contact), ListNotes(c.book, contact);
                       && |after| == |before|
                       && after[index] == Note(text)
                       && forall j :: 0 <= j < |before| && j != index ==> after[j] == before[j]
    ensures forall k :: k != contact ==> ListNotes(c.book, k) == ListNotes(b, k)
    ensures c.book.notes.Keys == b.notes.Keys
  {
    if InRange(b, contact, index) then
      Changed(true, NoteBook(b.notes[contact := b.notes[contact][index := Note(text)]]))
    else
      Changed(false, b)
  }

  /**
   * `delete_note(contact_name, index)`: an index inside the contact's list
   * removes exactly that note, the rest keeping their order, and `True` is
   * returned; any other index returns `False` and changes nothing.
   */
  function DeleteNote(b: NoteBook, contact: string, index: int): (c: Changed)
    ensures c.done <==> InRange(b, contact, index)
    ensures !c.done ==> c.book == b
    ensures c.done ==> var before, after := ListNotes(b, contact), ListNotes(c.book, contact);
                       && |after| == |before| - 1
                       && (forall j :: 0 <= j < index ==> after[j] == before[j])
                       && (forall j :: index <= j < |after| ==> after[j] == before[j + 1])
    ensures forall k :: k != contact ==> ListNotes(c.book, k) == ListNotes(b, k)
    ensures c.book.notes.Keys == b.notes.Keys
  {
    if InRange(b, contact, index) then
      var ns := b.notes[contact];
      Changed(true, NoteBook(b.notes[contact := ns[..index] + ns[index + 1..]]))
    else
      Changed(false, b)
  }

  /** A delete removes one occurrence of the note at the index and nothing else. */
  lemma DeleteNoteRemovesOne(b: NoteBook, contact: string, index: int)
    requires InRange(b, contact, index)
    ensures multiset(ListNotes(DeleteNote(b, contact, index).book, contact)) + multiset{ListNotes(b, contact)[index]}
            == multiset(ListNotes(b, contact))
  {
    var ns := ListNotes(b, contact);
    assert ns == ns[..index] + [ns[index]] + ns[index + 1..];
  }
}
