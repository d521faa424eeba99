/** The validated fields of a contact: Name, Phone and Birthday. Each is a value that
    is only built through its Make function, which applies the field's format rule
    and reports the error the constructor raises. */
module Fields {
  import opened Outcomes
  import opened Text
  import opened Dates

  // ---------------------------------------------------------------------------
  // Name

  /** Field / Name: the stripped text of the contact's name. */
  datatype Name = Name(value: string)

  /** What every stored name satisfies: non-empty, no whitespace at either end. */
  predicate ValidName(n: Name)
  {
    n.value != [] && !IsSpace(n.value[0]) && !IsSpace(n.value[|n.value| - 1])
  }

  /** Name(raw): raises when nothing is left after stripping, stores the stripped text. */
  function MakeName(raw: string): (r: Result<Name>)
    ensures r.Err? <==> AllSpace(raw)
    ensures r.Err? ==> r.error == EmptyName
    ensures r.Ok? ==> ValidName(r.value) && r.value.value == Trim(raw)
  {
    TrimEmpty(raw);
    TrimEnds(raw);
    if |Trim(raw)| == 0 then Err(EmptyName) else Ok(Name(Trim(raw)))
  }

  /** A stored name passed to Name(...) again yields the same name. */
  lemma NameRebuild(n: Name)
    requires ValidName(n)
    ensures MakeName(n.value) == Ok(n)
  {
    TrimTrimmed(n.value);
  }

  // ---------------------------------------------------------------------------
  // Phone

  /** Phone.isValid: re.fullmatch(r"\d{10}", s) over ASCII digits. */
  predicate IsValidPhone(s: string)
  {
    |s| == 10 && forall k :: 0 <= k < |s| ==> IsDigit(s[k])
  }

  /** Field / Phone: the ten digits of a number. Phone.__eq__ compares the values,
      which is the equality of this datatype. */
  datatype Phone = Phone(value: string)
  {
    /** Phone.edit(new): on a valid number the value becomes the stripped new text,
        which is the new text itself (DigitsAreNotSpace); otherwise it raises and the
        phone stays as it is. */
    function Edit(newRaw: string): (r: Result<Phone>)
      ensures r.Ok? <==> IsValidPhone(newRaw)
      ensures r.Ok? ==> r.value.value == newRaw
      ensures r.Err? ==> r.error == PhoneFormat
    {
      if IsValidPhone(newRaw) then Ok(this.(value := newRaw)) else Err(PhoneFormat)
    }
  }

  /** Digits are not whitespace, so the strip() that Phone(raw) and Phone.edit apply
      after validating leaves a valid number as it is. */
  lemma DigitsAreNotSpace(s: string)
    requires IsValidPhone(s)
    ensures Trim(s) == s
  {
    TrimNoSpace(s);
  }

  /** Phone(raw): validates the raw text (before stripping) and stores it stripped,
      which for a valid number is the raw text itself (DigitsAreNotSpace). */
  function MakePhone(raw: string): (r: Result<Phone>)
    ensures r.Ok? <==> IsValidPhone(raw)
    ensures r.Ok? ==> r.value.value == raw
    ensures r.Err? ==> r.error == PhoneFormat
  {
    if IsValidPhone(raw) then Ok(Phone(raw)) else Err(PhoneFormat)
  }

  // ---------------------------------------------------------------------------
  // Birthday

  /** Field / Birthday: the parsed date. */
  datatype Birthday = Birthday(value: Date)
  {
    /** Birthday.__str__: the date as DD.MM.YYYY. */
    function Text(): string
      requires ValidDate(value)
    {
      RenderDate(value)
    }
  }

  /** Birthday(raw) on the day `today`: raises on text that is not a DD.MM.YYYY date
      and on a date later than today; stores the date otherwise, and that date renders
      as the stripped text it came from. */
  function MakeBirthday(raw: string, today: Date): (r: Result<Birthday>)
    ensures ParseDate(Trim(raw)).None? ==> r == Err(DateFormat)
    ensures ParseDate(Trim(raw)).Some? && Before(today, ParseDate(Trim(raw)).value) ==> r == Err(FutureBirthday)
    ensures r.Ok? <==> ParseDate(Trim(raw)).Some? && NotAfter(ParseDate(Trim(raw)).value, today)
    ensures r.Ok? ==> ValidDate(r.value.value) && NotAfter(r.value.value, today) && r.value.Text() == Trim(raw)
  {
    match ParseDate(Trim(raw))
    case None => Err(DateFormat)
    case Some(d) =>
      if Before(today, d) then Err(FutureBirthday)
      else
        ParseThenRender(Trim(raw));
        Ok(Birthday(d))
  }

  /** Every date up to today, written as DD.MM.YYYY, is accepted as that date. */
  lemma BirthdayAcceptsRendered(d: Date, today: Date)
    requires ValidDate(d) && NotAfter(d, today)
    ensures MakeBirthday(RenderDate(d), today) == Ok(Birthday(d))
  {
    assert Trim(RenderDate(d)) == RenderDate(d) by {
      RenderChars(d);
      TrimNoSpace(RenderDate(d));
    }
    RenderThenParse(d);
  }

  /** Every date later than today is refused as a birthday. */
  lemma BirthdayRefusesFuture(d: Date, today: Date)
    requires ValidDate(d) && Before(today, d)
    ensures MakeBirthday(RenderDate(d), today) == Err(FutureBirthday)
  {
    assert Trim(RenderDate(d)) == RenderDate(d) by {
      RenderChars(d);
      TrimNoSpace(RenderDate(d));
    }
    RenderThenParse(d);
  }
}
