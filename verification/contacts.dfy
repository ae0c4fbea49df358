/**
 * `Record` of `src/main.py`: a contact's name, its ordered phone list and
 * an optional birthday, with the phone-list operations and the display
 * string. Every operation returns the updated record, or the error it
 * raises with the record left as it was.
 */
module Contacts {
  import opened Outcomes
  import opened Strings
  import opened Calendar
  import opened Fields
  import opened Seqs

  datatype Record = Record(name: string, phones: seq<string>, birthday: Option<Date>)

  /** What the field validators guarantee of every record they build. */
  predicate ValidRecord(r: Record)
  {
    && r.name != [] && Trimmed(r.name)
    && (forall i :: 0 <= i < |r.phones| ==> IsPhoneNumber(r.phones[i]))
    && (r.birthday.Some? ==> ValidDate(r.birthday.value))
  }

  /** `Record(name)`: a validated name, no phones and no birthday. */
  function NewRecord(name: string): (r: Result<Record, Error>)
    ensures r.Ok? <==> !AllSpace(name)
    ensures r.Ok? ==> ValidRecord(r.value) && r.value.name == Strip(name)
                      && r.value.phones == [] && r.value.birthday.None?
    ensures r.Err? ==> r.error == BlankName
  {
    var n :- MakeName(name);
    Ok(Record(n, [], None))
  }

  /**
   * `find_phone(phone)`: the stripped phone when the record holds it, `None`
   * when it does not; a blank argument is an error.
   */
  function FindPhone(r: Record, phone: string): (res: Result<Option<string>, Error>)
    ensures res.Err? <==> AllSpace(phone)
    ensures res.Err? ==> res.error == BlankPhone
    ensures res.Ok? ==> (res.value.Some? <==> Strip(phone) in r.phones)
    ensures res.Ok? && res.value.Some? ==> res.value.value == Strip(phone)
  {
    var p := Strip(phone);
    if p == [] then Err(BlankPhone)
    else if p in r.phones then Ok(Some(p))
    else Ok(None)
  }

  /**
   * `add_phone(phone)`: a phone already on the record (compared after
   * stripping) leaves it unchanged; otherwise the validated phone is
   * appended at the end.
   */
  function AddPhone(r: Record, phone: string): (res: Result<Record, Error>)
    ensures res.Ok? <==> !AllSpace(phone) && (Strip(phone) in r.phones || IsPhoneNumber(Strip(phone)))
    ensures res.Ok? && Strip(phone) in r.phones ==> res.value == r
    ensures res.Ok? && Strip(phone) !in r.phones ==>
              res.value == r.(phones := r.phones + [Strip(phone)])
    ensures res.Ok? && ValidRecord(r) ==> ValidRecord(res.value)
    ensures res.Err? ==> res.error in {BlankPhone, PhoneNotDigits, PhoneBadLength}
  {
    var found :- FindPhone(r, phone);
    if found.Some? then Ok(r)
    else
      var p :- MakePhone(phone);
      Ok(r.(phones := r.phones + [p]))
  }

  /** Adding the same phone twice leaves exactly one copy of it. */
  lemma AddPhoneTwice(r: Record, phone: string)
    requires Strip(phone) !in r.phones
    requires AddPhone(r, phone).Ok?
    ensures AddPhone(AddPhone(r, phone).value, phone) == AddPhone(r, phone)
    ensures multiset(AddPhone(r, phone).value.phones)[Strip(phone)] == 1
  {
    var p := Strip(phone);
    var r1 := AddPhone(r, phone).value;
    assert p in r1.phones;
    assert multiset(r.phones)[p] == 0;
  }

  /**
   * `remove_phone(phone)`: the argument is validated, then every copy of it
   * is removed and the other phones keep their order.
   */
  function RemovePhone(r: Record, phone: string): (res: Result<Record, Error>)
    ensures res.Ok? <==> IsPhoneNumber(Strip(phone))
    ensures res.Ok? ==> res.value.name == r.name && res.value.birthday == r.birthday
    ensures res.Ok? ==> forall q :: q in res.value.phones <==> q in r.phones && q != Strip(phone)
    ensures res.Ok? ==> forall q :: multiset(res.value.phones)[q] ==
                                    if q == Strip(phone) then 0 else multiset(r.phones)[q]
    ensures res.Ok? ==> IsSubsequence(res.value.phones, r.phones)
    ensures res.Ok? && Strip(phone) !in r.phones ==> res.value == r
    ensures res.Ok? && ValidRecord(r) ==> ValidRecord(res.value)
  {
    var p :- MakePhone(phone);
    Ok(r.(phones := Without(r.phones, p)))
  }

  /** The phones other than `p`, in their order. */
  function Without(phones: seq<string>, p: string): (r: seq<string>)
    ensures forall q :: q in r <==> q in phones && q != p
    ensures forall i :: 0 <= i < |r| ==> r[i] in phones
    ensures forall q :: multiset(r)[q] == if q == p then 0 else multiset(phones)[q]
    ensures IsSubsequence(r, phones)
    ensures p !in phones ==> r == phones
  {
    var keep := (q: string) => q != p;
    FilterMembers(phones, keep);
    FilterMultiplicity(phones, keep);
    FilterIsSubsequence(phones, keep);
    if p !in phones then
      FilterKeepsAll(phones, keep);
      Filter(phones, keep)
    else Filter(phones, keep)
  }

  /** The index of the first phone equal to `old_phone`, or `|phones|` when none is. */
  function FirstPhoneIndex(phones: seq<string>, oldPhone: string): (i: nat)
    ensures i <= |phones|
    ensures i < |phones| ==> phones[i] == oldPhone
    ensures forall j :: 0 <= j < i ==> phones[j] != oldPhone
    ensures i == |phones| <==> oldPhone !in phones
  {
    if phones == [] then 0
    else if phones[0] == oldPhone then 0
    else 1 + FirstPhoneIndex(phones[1..], oldPhone)
  }

  /**
   * `edit_phone(old_phone, new_phone)`: `old_phone` is compared exactly, without stripping;
   * the first phone equal to it is replaced by the validated `new_phone`. A
   * missing `old_phone` is reported before `new_phone` is looked at.
   */
  function EditPhone(r: Record, oldPhone: string, newPhone: string): (res: Result<Record, Error>)
    ensures res.Ok? <==> oldPhone in r.phones && IsPhoneNumber(Strip(newPhone))
    ensures res == Err(PhoneNotFound) <==> oldPhone !in r.phones
    ensures res.Ok? ==>
              && res.value.name == r.name && res.value.birthday == r.birthday
              && |res.value.phones| == |r.phones|
              && exists i :: 0 <= i < |r.phones| && r.phones[i] == oldPhone
                             && (forall j :: 0 <= j < i ==> r.phones[j] != oldPhone)
                             && res.value.phones == r.phones[i := Strip(newPhone)]
    ensures res.Ok? && ValidRecord(r) ==> ValidRecord(res.value)
  {
    var i := FirstPhoneIndex(r.phones, oldPhone);
    if i == |r.phones| then Err(PhoneNotFound)
    else
      var p :- MakePhone(newPhone);
      Ok(r.(phones := r.phones[i := p]))
  }

  /** `add_birthday(text)`: the validated birthday replaces any earlier one. */
  function AddBirthday(r: Record, text: DateText, now: Moment): (res: Result<Record, Error>)
    requires ValidMoment(now)
    ensures res.Ok? <==> MakeBirthday(text, now).Ok?
    ensures res.Ok? ==> res.value == r.(birthday := Some(MakeBirthday(text, now).value))
    ensures res.Ok? && ValidRecord(r) ==> ValidRecord(res.value)
    ensures res.Err? ==> res.error == MakeBirthday(text, now).error
  {
    var b :- MakeBirthday(text, now);
    Ok(r.(birthday := Some(b)))
  }

  const NamePrefix := "Contact name: "
  const PhonesLabel := ", phones: "
  const PhoneSeparator := "; "

  /**
   * `str(record)`: the name and the phones joined by "; ". The phone list
   * can be read back from the text that follows the name.
   */
  function Display(r: Record): (s: string)
    ensures |s| >= |NamePrefix + r.name + PhonesLabel|
    ensures s[..|NamePrefix + r.name + PhonesLabel|] == NamePrefix + r.name + PhonesLabel
    ensures ValidRecord(r) ==> ParsePhones(s[|NamePrefix + r.name + PhonesLabel|..]) == r.phones
  {
    var head := NamePrefix + r.name + PhonesLabel;
    var tail := Join(r.phones, PhoneSeparator);
    assert (head + tail)[..|head|] == head && (head + tail)[|head|..] == tail;
    if ValidRecord(r) then
      ParsePhonesOfJoin(r.phones);
      head + tail
    else head + tail
  }

  /** Reads a phone list back from its display form: split on ';', strip each piece. */
  function ParsePhones(s: string): seq<string>
  {
    if s == [] then [] else StripAll(SplitOn(s, ';'))
  }

  function StripAll(pieces: seq<string>): (r: seq<string>)
    ensures |r| == |pieces|
    ensures forall k :: 0 <= k < |r| ==> r[k] == Strip(pieces[k])
  {
    seq(|pieces|, k requires 0 <= k < |pieces| => Strip(pieces[k]))
  }

  /** Phone numbers joined by "; " parse back to the same list. */
  lemma ParsePhonesOfJoin(ps: seq<string>)
    requires forall k :: 0 <= k < |ps| ==> IsPhoneNumber(ps[k])
    ensures ParsePhones(Join(ps, PhoneSeparator)) == ps
  {
    if ps != [] {
      var tail := Join(ps, PhoneSeparator);
      JoinNotShorter(ps, PhoneSeparator);
      assert |ps[0]| == 10;
      assert ParsePhones(tail) == StripAll(SplitOn(tail, ';'));
      PhonePieces(ps);
      StripPieces(ps, Padded(ps));
    }
  }

  /** The pieces a phone list's display form splits into on ';': every phone after the first keeps a blank. */
  function Padded(ps: seq<string>): (pieces: seq<string>)
    ensures |pieces| == |ps|
    ensures forall k :: 0 <= k < |ps| ==> pieces[k] == if k == 0 then ps[0] else " " + ps[k]
  {
    seq(|ps|, k requires 0 <= k < |ps| => if k == 0 then ps[0] else " " + ps[k])
  }

  /** Splitting phones joined by "; " on ';' gives the padded phones. */
  lemma PhonePieces(ps: seq<string>)
    requires |ps| >= 1
    requires forall k :: 0 <= k < |ps| ==> IsPhoneNumber(ps[k])
    ensures SplitOn(Join(ps, PhoneSeparator), ';') == Padded(ps)
  {
    JoinPadded(ps);
    PaddedExcludes(ps);
    SplitJoin(Padded(ps), ';');
  }

  /** No padded phone contains ';'. */
  lemma PaddedExcludes(ps: seq<string>)
    requires forall k :: 0 <= k < |ps| ==> IsPhoneNumber(ps[k])
    ensures forall k :: 0 <= k < |ps| ==> Excludes(Padded(ps)[k], ';')
  {
    forall k | 0 <= k < |ps|
      ensures Excludes(Padded(ps)[k], ';')
    {
      PhoneExcludes(ps[k], ';');
      if k > 0 {
        assert Excludes(" ", ';');
        ExcludesAppend(" ", ps[k], ';');
      }
    }
  }

  /** Joining with "; " is joining the padded parts with ";". */
  lemma {:induction false} JoinPadded(ps: seq<string>)
    requires |ps| >= 1
    ensures Join(ps, PhoneSeparator) == Join(Padded(ps), [';'])
    decreases |ps|
  {
    if |ps| > 1 {
      var tail := ps[1..];
      JoinPadded(tail);
      assert Padded(ps)[1..] == Padded(tail)[0 := " " + tail[0]];
      JoinPrefixFirst(" ", Padded(tail), [';']);
      assert Padded(tail)[0] == tail[0];
    }
  }

  /** Prefixing the first part prefixes the join. */
  lemma JoinPrefixFirst(q: string, parts: seq<string>, sep: string)
    requires |parts| >= 1
    ensures Join(parts[0 := q + parts[0]], sep) == q + Join(parts, sep)
  {
    var moved := parts[0 := q + parts[0]];
    if |parts| > 1 {
      assert moved[1..] == parts[1..];
    }
  }

  /** The pieces of the split display form strip to the phones. */
  lemma StripPieces(ps: seq<string>, pieces: seq<string>)
    requires |ps| == |pieces| >= 1
    requires forall k :: 0 <= k < |ps| ==> IsPhoneNumber(ps[k])
    requires pieces[0] == ps[0]
    requires forall k :: 1 <= k < |ps| ==> pieces[k] == " " + ps[k]
    ensures StripAll(pieces) == ps
  {
    forall k | 0 <= k < |ps|
      ensures Strip(pieces[k]) == ps[k]
    {
      PieceStrips(ps, pieces, k);
    }
  }

  /** One piece of the split display form strips to its phone. */
  lemma PieceStrips(ps: seq<string>, pieces: seq<string>, k: int)
    requires 0 <= k < |ps| == |pieces|
    requires IsPhoneNumber(ps[k])
    requires k == 0 ==> pieces[k] == ps[k]
    requires k > 0 ==> pieces[k] == " " + ps[k]
    ensures Strip(pieces[k]) == ps[k]
  {
    PhoneIsTrimmed(ps[k]);
    if k > 0 {
      StripLeadingBlank(ps[k]);
    }
  }

  lemma PhoneExcludes(p: string, c: char)
    requires IsPhoneNumber(p) && c == ';'
    ensures Excludes(p, c)
  {
    forall j | 0 <= j < |p|
      ensures p[j] != c
    {
      assert IsDigit(p[j]);
    }
  }

  lemma PhoneIsTrimmed(p: string)
    requires IsPhoneNumber(p)
    ensures Trimmed(p) && Strip(p) == p
  {
    assert !IsSpace(p[0]) by {
      assert IsDigit(p[0]);
    }
    assert !IsSpace(p[|p| - 1]) by {
      assert IsDigit(p[|p| - 1]);
    }
    StripTrimmed(p);
  }

  lemma StripLeadingBlank(p: string)
    requires Trimmed(p) && p != []
    ensures Strip(" " + p) == p
  {
    var s := " " + p;
    assert s[1..] == p;
    assert LeadingSpace(s) == 1 + LeadingSpace(p);
    assert LeadingSpace(p) == 0;
    assert TrailingSpace(s) == 0;
  }
}
