/**
 * `AddressBook` of `src/main.py` and the contact search of
 * `search_contacts`. The book is a Python dict from name to record; its
 * iteration order is insertion order, so it is modelled as the sequence of
 * records in that order, with no name twice.
 */
module AddressBooks {
  import opened Outcomes
  import opened Strings
  import opened Seqs
  import opened Contacts

  datatype AddressBook = AddressBook(records: seq<Record>)

  /** The dict's keys, in iteration order. */
  function Names(b: AddressBook): (ns: seq<string>)
    ensures |ns| == |b.records|
    ensures forall i :: 0 <= i < |ns| ==> ns[i] == b.records[i].name
  {
    seq(|b.records|, i requires 0 <= i < |b.records| => b.records[i].name)
  }

  /** The dict invariant: every key once, each record stored under its own name. */
  predicate ValidBook(b: AddressBook)
  {
    NoDuplicates(Names(b))
  }

  /** The position of the record named `key`, or `|records|` when there is none. */
  function IndexOfName(records: seq<Record>, key: string): (i: nat)
    ensures i <= |records|
    ensures i < |records| ==> records[i].name == key
    ensures forall j :: 0 <= j < i ==> records[j].name != key
  {
    if records == [] then 0
    else if records[0].name == key then 0
    else 1 + IndexOfName(records[1..], key)
  }

  /** The first position holding `key` is the only one that satisfies `IndexOfName`'s contract. */
  lemma IndexOfNameUnique(records: seq<Record>, key: string, i: nat)
    requires i <= |records|
    requires i < |records| ==> records[i].name == key
    requires forall j :: 0 <= j < i ==> records[j].name != key
    ensures IndexOfName(records, key) == i
  {
  }

  /** `self.data.get(key)`. */
  function Lookup(b: AddressBook, key: string): (r: Option<Record>)
    ensures r.Some? ==> r.value in b.records && r.value.name == key
    ensures r.None? <==> forall i :: 0 <= i < |b.records| ==> b.records[i].name != key
  {
    var i := IndexOfName(b.records, key);
    if i < |b.records| then Some(b.records[i]) else None
  }

  /**
   * `add_record(record)`: the record is stored under its name. A name
   * already present keeps its place in the iteration order and gets the
   * new record; a new name goes last.
   */
  function AddRecord(b: AddressBook, r: Record): (b': AddressBook)
    ensures ValidBook(b) ==> ValidBook(b')
    ensures Lookup(b', r.name) == Some(r)
    ensures forall key :: key != r.name ==> Lookup(b', key) == Lookup(b, key)
    ensures Lookup(b, r.name).Some? ==> Names(b') == Names(b)
    ensures Lookup(b, r.name).None? ==> b'.records == b.records + [r]
  {
    var i := IndexOfName(b.records, r.name);
    var b' := if i < |b.records| then AddressBook(b.records[i := r]) else AddressBook(b.records + [r]);
    AddRecordFacts(b, r, i, b');
    b'
  }

  lemma AddRecordFacts(b: AddressBook, r: Record, i: nat, b': AddressBook)
    requires i == IndexOfName(b.records, r.name)
    requires b' == if i < |b.records| then AddressBook(b.records[i := r]) else AddressBook(b.records + [r])
    ensures ValidBook(b) ==> ValidBook(b')
    ensures Lookup(b', r.name) == Some(r)
    ensures forall key :: key != r.name ==> Lookup(b', key) == Lookup(b, key)
    ensures i < |b.records| ==> Names(b') == Names(b)
  {
    IndexOfNameUnique(b'.records, r.name, i);
    if i < |b.records| {
      assert Names(b') == Names(b);
    } else {
      AppendNewName(b, r);
    }
    forall key | key != r.name
      ensures Lookup(b', key) == Lookup(b, key)
    {
      OtherKeyAfterAdd(b, r, i, b', key);
    }
  }

  /** Storing `r` does not move or change any other key. */
  lemma OtherKeyAfterAdd(b: AddressBook, r: Record, i: nat, b': AddressBook, key: string)
    requires i == IndexOfName(b.records, r.name)
    requires b' == if i < |b.records| then AddressBook(b.records[i := r]) else AddressBook(b.records + [r])
    requires key != r.name
    ensures Lookup(b', key) == Lookup(b, key)
  {
    var a := IndexOfName(b.records, key);
    if a < |b.records| {
      IndexOfNameUnique(b'.records, key, a);
    } else {
      IndexOfNameUnique(b'.records, key, |b'.records|);
    }
  }

  /** Appending a record with a new name keeps the names distinct. */
  lemma AppendNewName(b: AddressBook, r: Record)
    requires IndexOfName(b.records, r.name) == |b.records|
    ensures ValidBook(b) ==> ValidBook(AddressBook(b.records + [r]))
  {
    var b' := AddressBook(b.records + [r]);
    assert Names(b') == Names(b) + [r.name];
  }

  /** `find(name)`: the record stored under the stripped name, matched exactly; a blank name is an error. */
  function Find(b: AddressBook, name: string): (res: Result<Option<Record>, Error>)
    ensures res.Err? <==> AllSpace(name)
    ensures res.Err? ==> res.error == BlankName
    ensures res.Ok? && res.value.Some? ==> res.value.value in b.records && res.value.value.name == Strip(name)
    ensures res.Ok? && res.value.None? ==> forall r :: r in b.records ==> r.name != Strip(name)
  {
    var key := Strip(name);
    if key == [] then Err(BlankName) else Ok(Lookup(b, key))
  }

  /**
   * `delete(name)`: removes the record stored under the stripped name; a
   * blank name or an absent one is an error and removes nothing.
   */
  function Delete(b: AddressBook, name: string): (res: Result<AddressBook, Error>)
    ensures AllSpace(name) ==> res == Err(BlankName)
    ensures !AllSpace(name) ==> (res.Ok? <==> Lookup(b, Strip(name)).Some?)
    ensures !AllSpace(name) && res.Err? ==> res.error == ContactNotFound(Strip(name))
    ensures res.Ok? ==> |res.value.records| == |b.records| - 1
    ensures res.Ok? ==> exists i :: 0 <= i < |b.records| && b.records[i].name == Strip(name)
                                    && res.value.records == b.records[..i] + b.records[i + 1..]
    ensures res.Ok? ==> forall r :: r in res.value.records ==> r in b.records
    ensures res.Ok? && ValidBook(b) ==>
              && ValidBook(res.value)
              && Lookup(res.value, Strip(name)).None?
              && forall r :: r in b.records && r.name != Strip(name) ==> r in res.value.records
  {
    var key := Strip(name);
    if key == [] then Err(BlankName)
    else
      var i := IndexOfName(b.records, key);
      if i == |b.records| then Err(ContactNotFound(key))
      else
        var b' := AddressBook(b.records[..i] + b.records[i + 1..]);
        DeleteFacts(b, key, i, b');
        Ok(b')
  }

  lemma DeleteFacts(b: AddressBook, key: string, i: nat, b': AddressBook)
    requires i < |b.records| && b.records[i].name == key
    requires b'.records == b.records[..i] + b.records[i + 1..]
    ensures forall r :: r in b'.records ==> r in b.records
    ensures ValidBook(b) ==>
              && ValidBook(b')
              && (forall j :: 0 <= j < |b'.records| ==> b'.records[j].name != key)
              && forall r :: r in b.records && r.name != key ==> r in b'.records
  {
    var xs := b.records;
    var ys := b'.records;
    assert forall j :: 0 <= j < |ys| ==> ys[j] == xs[if j < i then j else j + 1];
    if ValidBook(b) {
      forall j, k | 0 <= j < k < |ys|
        ensures ys[j].name != ys[k].name
      {
        var j' := if j < i then j else j + 1;
        var k' := if k < i then k else k + 1;
        assert Names(b)[j'] != Names(b)[k'];
      }
      forall j | 0 <= j < |ys|
        ensures ys[j].name != key
      {
        var j' := if j < i then j else j + 1;
        assert Names(b)[j'] != Names(b)[i] || j' == i;
      }
      forall r | r in xs && r.name != key
        ensures r in ys
      {
        var j :| 0 <= j < |xs| && xs[j] == r;
        if j < i {
          assert ys[j] == r;
        } else {
          assert ys[j - 1] == r;
        }
      }
    }
  }

  /** A record just added is found again under any spelling that strips to its name. */
  lemma FindAfterAdd(b: AddressBook, r: Record, name: string)
    requires ValidRecord(r) && Strip(name) == r.name
    ensures Find(AddRecord(b, r), name) == Ok(Some(r))
  {
  }

  /** After a successful delete the name is no longer found, and no other name is affected. */
  lemma FindAfterDelete(b: AddressBook, name: string, other: string)
    requires ValidBook(b) && Delete(b, name).Ok?
    requires Strip(other) != Strip(name)
    ensures Find(Delete(b, name).value, name) == Ok(None)
    ensures Find(Delete(b, name).value, other) == Find(b, other)
  {
    var b' := Delete(b, name).value;
    var key := Strip(name);
    if !AllSpace(other) {
      var k := Strip(other);
      var i := IndexOfName(b.records, key);
      assert b'.records == b.records[..i] + b.records[i + 1..];
      LookupAfterRemoval(b, i, b', k);
    }
  }

  lemma LookupAfterRemoval(b: AddressBook, i: nat, b': AddressBook, k: string)
    requires i < |b.records| && b.records[i].name != k
    requires b'.records == b.records[..i] + b.records[i + 1..]
    ensures Lookup(b', k) == Lookup(b, k)
  {
    var xs := b.records;
    var ys := b'.records;
    var a := IndexOfName(xs, k);
    assert forall j :: 0 <= j < |ys| ==> ys[j] == xs[if j < i then j else j + 1];
    if a < |xs| {
      var a' := if a < i then a else a - 1;
      IndexOfNameUnique(ys, k, a');
    } else {
      IndexOfNameUnique(ys, k, |ys|);
    }
  }

  /** Lookup is exact: a name that differs only in letter case is a different key. */
  lemma FindIsCaseSensitive()
    ensures Find(AddressBook([Record("Ann", [], None)]), "ann") == Ok(None)
    ensures Find(AddressBook([Record("Ann", [], None)]), " Ann ") == Ok(Some(Record("Ann", [], None)))
  {
    StripTrimmed("ann");
    assert "Ann" != "ann" by {
      assert "Ann"[0] != "ann"[0];
    }
    PaddedAnn();
  }

  /** The padded spelling used above strips to the stored name. */
  lemma PaddedAnn()
    ensures Strip(" Ann ") == "Ann"
  {
    StripBlankPadded("Ann");
    assert " " + "Ann" + " " == " Ann ";
  }

  /** Distinct names make distinct records. */
  lemma ValidBookNoDuplicates(b: AddressBook)
    requires ValidBook(b)
    ensures NoDuplicates(b.records)
  {
    forall i, j | 0 <= i < j < |b.records|
      ensures b.records[i] != b.records[j]
    {
      assert Names(b)[i] != Names(b)[j];
    }
  }

  /**
   * The test `search_contacts` applies to one record, with the keyword
   * already lower-cased: it occurs in the lower-cased name or in one of the
   * phones.
   */
  predicate Matches(keyword: string, r: Record)
  {
    Contains(keyword, Lower(r.name)) || exists i :: 0 <= i < |r.phones| && Contains(keyword, r.phones[i])
  }

  function MatchTest(keyword: string): Record -> bool
  {
    r => Matches(keyword, r)
  }

  /**
   * The loop of `search_contacts`: the matching records in book order, each
   * added once however many of its fields match.
   */
  method MatchingContacts(keyword: string, b: AddressBook) returns (hits: seq<Record>)
    ensures hits == Filter(b.records, MatchTest(keyword))
    ensures forall r :: r in hits <==> r in b.records && Matches(keyword, r)
    ensures ValidBook(b) ==> NoDuplicates(hits)
  {
    hits := [];
    for i := 0 to |b.records|
      invariant hits == Filter(b.records[..i], MatchTest(keyword))
    {
      var r := b.records[i];
      var matched := RecordMatches(keyword, r);
      assert b.records[..i + 1] == b.records[..i] + [r];
      FilterSnoc(b.records[..i], r, MatchTest(keyword));
      if matched {
        hits := hits + [r];
      }
    }
    assert b.records[..|b.records|] == b.records;
    MatchTestMeaning(keyword, b.records);
    if ValidBook(b) {
      ValidBookNoDuplicates(b);
      FilterNoDuplicates(b.records, MatchTest(keyword));
    }
  }

  lemma MatchTestMeaning(keyword: string, records: seq<Record>)
    ensures forall r :: r in Filter(records, MatchTest(keyword)) <==> r in records && Matches(keyword, r)
  {
    FilterMembers(records, MatchTest(keyword));
  }

  /** One iteration of the search loop: the name first, then the phones until one matches. */
  method RecordMatches(keyword: string, r: Record) returns (matched: bool)
    ensures matched == MatchTest(keyword)(r)
    ensures matched <==> Contains(keyword, Lower(r.name))
                         || exists k :: 0 <= k < |r.phones| && Contains(keyword, r.phones[k])
  {
    if Contains(keyword, Lower(r.name)) {
      return true;
    }
    var j := 0;
    while j < |r.phones| && !Contains(keyword, r.phones[j])
      invariant 0 <= j <= |r.phones|
      invariant forall k :: 0 <= k < j ==> !Contains(keyword, r.phones[k])
    {
      j := j + 1;
    }
    matched := j < |r.phones|;
  }

  const NoKeyword := "Please provide a search keyword."
  const NoMatches := "No matching contacts found."

  function Displays(rs: seq<Record>): (ds: seq<string>)
    ensures |ds| == |rs|
    ensures forall i :: 0 <= i < |rs| ==> ds[i] == Display(rs[i])
  {
    seq(|rs|, i requires 0 <= i < |rs| => Display(rs[i]))
  }

  /**
   * `search_contacts(args, book)`: the display lines of the matching
   * records, one per line, or a message when there is no keyword or no
   * match. Only the first argument is used.
   */
  method SearchContacts(args: seq<string>, b: AddressBook) returns (out: string)
    ensures args == [] ==> out == NoKeyword
    ensures args != [] && Filter(b.records, MatchTest(Lower(args[0]))) == [] ==> out == NoMatches
    ensures args != [] && Filter(b.records, MatchTest(Lower(args[0]))) != [] ==>
              out == Join(Displays(Filter(b.records, MatchTest(Lower(args[0])))), "\n")
  {
    if args == [] {
      return NoKeyword;
    }
    var hits := MatchingContacts(Lower(args[0]), b);
    if hits == [] {
      out := NoMatches;
    } else {
      out := Join(Displays(hits), "\n");
    }
  }
}
