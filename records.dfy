/** Record: one contact, with its name, its ordered list of phones and an optional
    birthday. The phone operations change the list in place. */
module Records {
  import opened Outcomes
  import opened Text
  import opened Dates
  import opened Fields

  /** Every phone of the list satisfies the phone format. */
  predicate AllValidPhones(phones: seq<Phone>)
  {
    forall i :: 0 <= i < |phones| ==> IsValidPhone(phones[i].value)
  }

  /** The position of the first phone equal to p, as the scan in find_phone meets it. */
  function IndexOf(phones: seq<Phone>, p: Phone): (r: Option<nat>)
    ensures r.None? <==> p !in phones
    ensures r.Some? ==> r.value < |phones| && phones[r.value] == p && p !in phones[..r.value]
  {
    if phones == [] then None
    else if phones[0] == p then Some(0)
    else
      match IndexOf(phones[1..], p)
      case None => None
      case Some(i) =>
        assert phones[..i + 1] == [phones[0]] + phones[1..][..i];
        Some(i + 1)
  }

  /** list.remove(p): the list without its first element equal to p. */
  function RemoveFirst(phones: seq<Phone>, p: Phone): seq<Phone>
  {
    if phones == [] then []
    else if phones[0] == p then phones[1..]
    else [phones[0]] + RemoveFirst(phones[1..], p)
  }

  /** list.remove(p) takes out exactly the element at the first position holding p
      and keeps the others in their order. */
  lemma {:induction false} RemoveFirstAt(phones: seq<Phone>, p: Phone)
    requires p in phones
    ensures var k := IndexOf(phones, p).value;
            RemoveFirst(phones, p) == phones[..k] + phones[k + 1..]
  {
    if phones[0] != p {
      RemoveFirstAt(phones[1..], p);
      var k := IndexOf(phones[1..], p).value;
      assert phones[..k + 1] == [phones[0]] + phones[1..][..k];
      assert phones[k + 2..] == phones[1..][k + 1..];
    }
  }

  /** list.remove(p) on a list holding p removes one copy of p and nothing else. */
  lemma RemoveFirstCount(phones: seq<Phone>, p: Phone)
    requires p in phones
    ensures |RemoveFirst(phones, p)| == |phones| - 1
    ensures multiset(RemoveFirst(phones, p)) == multiset(phones) - multiset{p}
  {
    RemoveFirstAt(phones, p);
    var k := IndexOf(phones, p).value;
    var front, back := phones[..k], phones[k + 1..];
    assert phones == front + [p] + back;
    assert RemoveFirst(phones, p) == front + back;
    assert multiset(phones) == multiset(front) + multiset{p} + multiset(back);
  }

  /** Removing a number right after appending it restores the phone count; when the
      number was already stored, it is the earlier copy that goes. */
  lemma {:induction false} AddThenRemove(phones: seq<Phone>, p: Phone)
    ensures RemoveFirst(phones + [p], p) ==
            if p in phones then RemoveFirst(phones, p) + [p] else phones
  {
    if phones != [] {
      assert (phones + [p])[1..] == phones[1..] + [p];
      AddThenRemove(phones[1..], p);
    }
  }

  /** The phones joined by "; ", as in Record.__str__. */
  function JoinPhones(phones: seq<Phone>): string
  {
    if phones == [] then ""
    else if |phones| == 1 then phones[0].value
    else phones[0].value + "; " + JoinPhones(phones[1..])
  }

  /** Reads a "; "-joined list of ten-digit numbers back into phones. It has no
      counterpart in the contact book: it is the inverse PhonesTextRoundTrip needs, and
      what it returns for text that is not such a join does not matter. */
  function SplitPhones(s: string): seq<Phone>
    decreases |s|
  {
    if s == [] then []
    else if |s| <= 12 then [Phone(s[..if |s| < 10 then |s| else 10])]
    else [Phone(s[..10])] + SplitPhones(s[12..])
  }

  /** The phone list in a record's text shows every phone, in order, unambiguously. */
  lemma {:induction false} PhonesTextRoundTrip(phones: seq<Phone>)
    requires AllValidPhones(phones)
    ensures SplitPhones(JoinPhones(phones)) == phones
  {
    if |phones| == 1 {
      assert JoinPhones(phones)[..10] == phones[0].value;
    } else if |phones| > 1 {
      var rest := phones[1..];
      assert AllValidPhones(rest) by {
        forall i | 0 <= i < |rest| ensures IsValidPhone(rest[i].value) { assert rest[i] == phones[i + 1]; }
      }
      PhonesTextRoundTrip(rest);
      JoinPhonesNonEmpty(rest);
      var s := JoinPhones(phones);
      assert s == phones[0].value + "; " + JoinPhones(rest);
      assert s[..10] == phones[0].value;
      assert s[12..] == JoinPhones(rest);
    }
  }

  lemma {:induction false} JoinPhonesNonEmpty(phones: seq<Phone>)
    requires AllValidPhones(phones) && phones != []
    ensures |JoinPhones(phones)| >= 10
  {
    if |phones| > 1 {
      assert IsValidPhone(phones[0].value);
    }
  }

  /** A contact. The name is fixed at construction; the phones and the birthday change
      in place. */
  class Record {
    const name: Name
    var phones: seq<Phone>
    var birthday: Option<Birthday>

    /** Every stored field satisfies its format rule. */
    ghost predicate Valid()
      reads this
    {
      ValidName(name) && AllValidPhones(phones) &&
      (birthday.Some? ==> ValidDate(birthday.value.value))
    }

    /** Record.__init__ once the name has been built: no phones and no birthday. */
    constructor (n: Name)
      requires ValidName(n)
      ensures Valid() && name == n && phones == [] && birthday == None
    {
      name := n;
      phones := [];
      birthday := None;
    }

    /** Record(raw): raises the Name error on a blank name. */
    static method New(raw: string) returns (r: Result<Record>)
      ensures r.Err? <==> AllSpace(raw)
      ensures r.Err? ==> r.error == EmptyName
      ensures r.Ok? ==> fresh(r.value) && r.value.Valid() && r.value.name == Name(Trim(raw)) &&
                        r.value.phones == [] && r.value.birthday == None
    {
      var n := MakeName(raw);
      if n.Err? {
        return Err(n.error);
      }
      var rec := new Record(n.value);
      return Ok(rec);
    }

    /** add_phone: appends the new phone, duplicates included; a malformed number
        raises and leaves the list alone. */
    method AddPhone(raw: string) returns (r: Outcome)
      requires Valid()
      modifies this
      ensures Valid()
      ensures r == (if IsValidPhone(raw) then Pass else Fail(PhoneFormat))
      ensures phones == (if r.Pass? then old(phones) + [Phone(raw)] else old(phones))
      ensures birthday == old(birthday)
    {
      var p := MakePhone(raw);
      if p.Err? {
        return Fail(p.error);
      }
      phones := phones + [p.value];
      return Pass;
    }

    /** find_phone: checks the query's format first, then returns the position of the
        first stored phone with the same number (the Phone object that find_phone
        returns is phones[r.value]). */
    method FindPhone(raw: string) returns (r: Result<nat>)
      ensures !IsValidPhone(raw) ==> r == Err(PhoneFormat)
      ensures IsValidPhone(raw) && Phone(raw) !in phones ==> r == Err(PhoneNotFound(raw))
      ensures r.Ok? <==> IsValidPhone(raw) && Phone(raw) in phones
      ensures r.Ok? ==> r.value < |phones| && phones[r.value].value == raw &&
                        Phone(raw) !in phones[..r.value]
    {
      var query := MakePhone(raw);
      if query.Err? {
        return Err(query.error);
      }
      var i := 0;
      while i < |phones|
        invariant 0 <= i <= |phones|
        invariant query.value !in phones[..i]
      {
        if phones[i] == query.value {
          return Ok(i);
        }
        assert phones[..i + 1] == phones[..i] + [phones[i]];
        i := i + 1;
      }
      assert phones[..i] == phones;
      return Err(PhoneNotFound(raw));
    }

    /** remove_phone: list.remove of the phone find_phone returns, that is of the first
        equal number; the errors of find_phone leave the list alone. */
    method RemovePhone(raw: string) returns (r: Outcome)
      requires Valid()
      modifies this
      ensures Valid()
      ensures !IsValidPhone(raw) ==> r == Fail(PhoneFormat)
      ensures IsValidPhone(raw) && Phone(raw) !in old(phones) ==> r == Fail(PhoneNotFound(raw))
      ensures r.Pass? <==> IsValidPhone(raw) && Phone(raw) in old(phones)
      ensures phones == (if r.Pass? then RemoveFirst(old(phones), Phone(raw)) else old(phones))
      ensures birthday == old(birthday)
    {
      var found := FindPhone(raw);
      if found.Err? {
        return Fail(found.error);
      }
      var k := found.value;
      SameFirstIndex(phones, Phone(raw), k);
      RemoveFirstAt(phones, Phone(raw));
      phones := phones[..k] + phones[k + 1..];
      return Pass;
    }

    /** edit_phone: finds the old number (format error, then not found), then edits that
        phone in place (format error on the new number); any error leaves every phone
        as it was. */
    method EditPhone(oldRaw: string, newRaw: string) returns (r: Outcome)
      requires Valid()
      modifies this
      ensures Valid()
      ensures !IsValidPhone(oldRaw) ==> r == Fail(PhoneFormat)
      ensures IsValidPhone(oldRaw) && Phone(oldRaw) !in old(phones) ==> r == Fail(PhoneNotFound(oldRaw))
      ensures IsValidPhone(oldRaw) && Phone(oldRaw) in old(phones) && !IsValidPhone(newRaw) ==>
                r == Fail(PhoneFormat)
      ensures r.Pass? <==> IsValidPhone(oldRaw) && Phone(oldRaw) in old(phones) && IsValidPhone(newRaw)
      ensures phones == (if r.Pass? then old(phones)[IndexOf(old(phones), Phone(oldRaw)).value := Phone(newRaw)]
                         else old(phones))
      ensures birthday == old(birthday)
    {
      var found := FindPhone(oldRaw);
      if found.Err? {
        return Fail(found.error);
      }
      var k := found.value;
      SameFirstIndex(phones, Phone(oldRaw), k);
      var edited := phones[k].Edit(newRaw);
      if edited.Err? {
        return Fail(edited.error);
      }
      phones := phones[k := edited.value];
      return Pass;
    }

    /** add_birthday: stores the new birthday over any earlier one; an invalid or future
        date raises and keeps the earlier one. */
    method AddBirthday(raw: string, today: Date) returns (r: Outcome)
      requires Valid()
      modifies this
      ensures Valid()
      ensures r.Pass? <==> MakeBirthday(raw, today).Ok?
      ensures r.Fail? ==> r.error == MakeBirthday(raw, today).error && birthday == old(birthday)
      ensures r.Pass? ==> birthday == Some(MakeBirthday(raw, today).value)
      ensures phones == old(phones)
    {
      var b := MakeBirthday(raw, today);
      if b.Err? {
        return Fail(b.error);
      }
      birthday := Some(b.value);
      return Pass;
    }

    /** Record.__str__. */
    function Text(): string
      reads this
      requires Valid()
    {
      "Contact name: " + name.value + ", phones: " + JoinPhones(phones) +
      (if birthday.Some? then ", birthday: " + birthday.value.Text() else "")
    }
  }

  /** Two positions that are both "the first holding p" are the same position. */
  lemma SameFirstIndex(phones: seq<Phone>, p: Phone, k: nat)
    requires k < |phones| && phones[k] == p && p !in phones[..k]
    ensures IndexOf(phones, p) == Some(k)
  {
    var j := IndexOf(phones, p).value;
    InPrefix(phones, j);
    InPrefix(phones, k);
  }

  /** Every element of a prefix is in the prefix. */
  lemma InPrefix(s: seq<Phone>, n: nat)
    requires n <= |s|
    ensures forall i :: 0 <= i < n ==> s[i] in s[..n]
  {
    forall i | 0 <= i < n ensures s[i] in s[..n] {
      assert s[..n][i] == s[i];
    }
  }
}
