/** The upcoming-birthdays query on values: for each contact, in the book's order, the
    birthday's day and month in today's year, moved to next year once it has passed,
    kept when it falls between today and seven days later. */
module Query {
  import opened Outcomes
  import opened Dates

  /** What the query reads from one record: the record's name and its birthday, if any. */
  datatype Row = Row(name: string, birthday: Option<Date>)

  /** One element of the result, {"name": ..., "congratulation_date": ...}; the
      congratulation text is RenderDate(date). */
  datatype Entry = Entry(name: string, date: Date)

  /** The window ends at today + timedelta(days=7). */
  const WindowDays := 7

  /** Every stored birthday is a date datetime.date can hold. */
  predicate RowsValid(rows: seq<Row>)
  {
    forall i :: 0 <= i < |rows| && rows[i].birthday.Some? ==> ValidDate(rows[i].birthday.value)
  }

  /** The day d lies, by day count, between today and WindowDays days later, both included. */
  predicate InWindow(d: Date, today: Date)
  {
    ValidDate(d) && Ordinal(today) <= Ordinal(d) <= Ordinal(today) + WindowDays
  }

  /** birthday_this_year: the birthday's day and month in today's year, or in the next
      year when that day is already past. date.replace raises for 29 February unless
      the target year is a leap year, and for a target year past 9999. */
  function Occurrence(b: Date, today: Date): (r: Result<Date>)
    requires ValidDate(b) && ValidDate(today)
    ensures r.Ok? ==> ValidDate(r.value) && r.value.month == b.month && r.value.day == b.day
    ensures r.Ok? ==> NotAfter(today, r.value)
    ensures r.Ok? ==> if Before(Date(today.year, b.month, b.day), today) then r.value.year == today.year + 1
                      else r.value.year == today.year
  {
    match ReplaceYear(b, today.year)
    case Err(e) => Err(e)
    case Ok(d) => if Before(d, today) then ReplaceYear(d, today.year + 1) else Ok(d)
  }

  /** The occurrence fails for a 29 February birthday unless today's year is a leap
      year and today is not past 29 February, and for a passed birthday in 9999. */
  lemma OccurrenceFails(b: Date, today: Date)
    requires ValidDate(b) && ValidDate(today)
    ensures Occurrence(b, today).Err? <==>
              (b.month == 2 && b.day == 29 && (!IsLeap(today.year) || Before(Date(today.year, 2, 29), today))) ||
              (Before(Date(today.year, b.month, b.day), today) && today.year == MaxYear)
  {
    ReplaceYearSpec(b, today.year);
    if ReplaceYear(b, today.year).Ok? {
      ReplaceYearSpec(ReplaceYear(b, today.year).value, today.year + 1);
    }
  }

  /** The body of the loop for one record: Ok(None) when it adds nothing. The chained
      comparison today <= d <= today + 7 days evaluates the sum only when today <= d. */
  function Consider(row: Row, today: Date): Result<Option<Entry>>
    requires ValidDate(today) && (row.birthday.Some? ==> ValidDate(row.birthday.value))
  {
    match row.birthday
    case None => Ok(None)
    case Some(b) =>
      match Occurrence(b, today)
      case Err(e) => Err(e)
      case Ok(d) =>
        if !NotAfter(today, d) then Ok(None)
        else
          match Plus(today, WindowDays)
          case Err(e) => Err(e)
          case Ok(last) => if NotAfter(d, last) then Ok(Some(Entry(row.name, d))) else Ok(None)
  }

  /** get_upcoming_birthdays over the rows in the book's order; the first error raised
      by a row ends the whole query. */
  function Upcoming(rows: seq<Row>, today: Date): Result<seq<Entry>>
    requires ValidDate(today) && RowsValid(rows)
  {
    if rows == [] then Ok([])
    else
      var last := rows[|rows| - 1];
      match Upcoming(rows[..|rows| - 1], today)
      case Err(e) => Err(e)
      case Ok(acc) =>
        match Consider(last, today)
        case Err(e) => Err(e)
        case Ok(None) => Ok(acc)
        case Ok(Some(x)) => Ok(acc + [x])
  }

  /** A row the query keeps: it has a birthday whose next occurrence exists and lies in
      the window. */
  predicate Selected(row: Row, today: Date)
    requires ValidDate(today) && (row.birthday.Some? ==> ValidDate(row.birthday.value))
  {
    row.birthday.Some? && Occurrence(row.birthday.value, today).Ok? &&
    InWindow(Occurrence(row.birthday.value, today).value, today)
  }

  /** The lexicographic bounds of the loop are the day-count window. */
  lemma WindowBounds(d: Date, today: Date)
    requires ValidDate(d) && ValidDate(today) && Plus(today, WindowDays).Ok?
    ensures NotAfter(today, d) && NotAfter(d, Plus(today, WindowDays).value) <==> InWindow(d, today)
  {
    PlusSpec(today, WindowDays);
    OrdinalOrder(d, today);
    OrdinalOrder(d, Plus(today, WindowDays).value);
  }

  /** One record's outcome: an error exactly when it has a birthday and date.replace or
      the window's end raises; otherwise something exactly when the row is selected,
      and then the entry names the row and carries the occurrence. */
  lemma ConsiderSpec(row: Row, today: Date)
    requires ValidDate(today) && (row.birthday.Some? ==> ValidDate(row.birthday.value))
    ensures Consider(row, today).Err? <==>
              row.birthday.Some? &&
              (Occurrence(row.birthday.value, today).Err? || Plus(today, WindowDays).Err?)
    ensures Consider(row, today).Ok? ==>
              (Consider(row, today).value.Some? <==> Selected(row, today))
    ensures Consider(row, today).Ok? && Consider(row, today).value.Some? ==>
              Consider(row, today).value.value == Entry(row.name, Occurrence(row.birthday.value, today).value)
  {
    if row.birthday.Some? && Occurrence(row.birthday.value, today).Ok? && Plus(today, WindowDays).Ok? {
      WindowBounds(Occurrence(row.birthday.value, today).value, today);
    }
  }

  /** Every row of a prefix of valid rows is valid. */
  lemma RowsValidPrefix(rows: seq<Row>, n: nat)
    requires RowsValid(rows) && n <= |rows|
    ensures RowsValid(rows[..n])
  {
    assert forall i :: 0 <= i < n ==> rows[..n][i] == rows[i];
  }

  /** The query fails exactly when some record's step raises. */
  lemma {:induction false} UpcomingFails(rows: seq<Row>, today: Date)
    requires ValidDate(today) && RowsValid(rows)
    ensures Upcoming(rows, today).Err? <==> exists i :: 0 <= i < |rows| && Consider(rows[i], today).Err?
  {
    if rows != [] {
      var n := |rows| - 1;
      var front := rows[..n];
      RowsValidPrefix(rows, n);
      UpcomingFails(front, today);
      assert forall i :: 0 <= i < n ==> front[i] == rows[i];
      if Consider(rows[n], today).Err? {
        assert exists i :: 0 <= i < |rows| && Consider(rows[i], today).Err?;
      }
      if Upcoming(front, today).Err? {
        var i :| 0 <= i < n && Consider(front[i], today).Err?;
        assert Consider(rows[i], today).Err?;
      }
      if exists i :: 0 <= i < |rows| && Consider(rows[i], today).Err? {
        var i :| 0 <= i < |rows| && Consider(rows[i], today).Err?;
        if i < n {
          assert Consider(front[i], today).Err?;
        }
      }
    }
  }

  /** The positions of the selected rows, in increasing order. */
  ghost function Picked(rows: seq<Row>, today: Date): seq<int>
    requires ValidDate(today) && RowsValid(rows)
  {
    if rows == [] then []
    else
      RowsValidPrefix(rows, |rows| - 1);
      Picked(rows[..|rows| - 1], today) +
      (if Selected(rows[|rows| - 1], today) then [|rows| - 1] else [])
  }

  /** The picked positions are increasing positions of the rows, exactly those of the
      selected rows. */
  lemma {:induction false} PickedSpec(rows: seq<Row>, today: Date)
    requires ValidDate(today) && RowsValid(rows)
    ensures var idx := Picked(rows, today);
            (forall k :: 0 <= k < |idx| ==> 0 <= idx[k] < |rows|) &&
            (forall k1, k2 :: 0 <= k1 < k2 < |idx| ==> idx[k1] < idx[k2]) &&
            (forall i :: 0 <= i < |rows| ==> (i in idx <==> Selected(rows[i], today)))
  {
    if rows != [] {
      var n := |rows| - 1;
      var front := rows[..n];
      RowsValidPrefix(rows, n);
      PickedSpec(front, today);
      assert forall i :: 0 <= i < n ==> front[i] == rows[i];
    }
  }

  /** A successful query over rows ends with the last row's entry exactly when that
      row is selected, after the entries of the rows before it. */
  lemma UpcomingLast(rows: seq<Row>, today: Date)
    requires ValidDate(today) && RowsValid(rows) && rows != [] && Upcoming(rows, today).Ok?
    ensures RowsValid(rows[..|rows| - 1]) && Upcoming(rows[..|rows| - 1], today).Ok?
    ensures var n, row := |rows| - 1, rows[|rows| - 1];
            Upcoming(rows, today).value == Upcoming(rows[..n], today).value +
              if Selected(row, today) then [Entry(row.name, Occurrence(row.birthday.value, today).value)] else []
  {
    RowsValidPrefix(rows, |rows| - 1);
    ConsiderSpec(rows[|rows| - 1], today);
  }

  /** What a successful query returns: one entry per picked row, in the same order,
      naming the row and carrying its next occurrence. */
  lemma {:induction false} UpcomingPicks(rows: seq<Row>, today: Date)
    requires ValidDate(today) && RowsValid(rows) && Upcoming(rows, today).Ok?
    ensures var es, idx := Upcoming(rows, today).value, Picked(rows, today);
            |idx| == |es| &&
            (forall k :: 0 <= k < |idx| ==> PicksEntry(rows, today, idx[k], es[k]))
  {
    if rows != [] {
      var n := |rows| - 1;
      var front := rows[..n];
      UpcomingLast(rows, today);
      UpcomingPicks(front, today);
      PickedSpec(front, today);
      var es0, idx0 := Upcoming(front, today).value, Picked(front, today);
      var es, idx := Upcoming(rows, today).value, Picked(rows, today);
      forall k | 0 <= k < |idx0| ensures PicksEntry(rows, today, idx[k], es[k]) {
        assert idx[k] == idx0[k] && es[k] == es0[k];
        assert PicksEntry(front, today, idx0[k], es0[k]);
        assert rows[idx0[k]] == front[idx0[k]];
      }
    }
  }

  /** Row i is the one the entry e celebrates: it has a birthday, and e carries its
      name and its next occurrence. */
  predicate PicksEntry(rows: seq<Row>, today: Date, i: int, e: Entry)
    requires ValidDate(today) && RowsValid(rows)
  {
    0 <= i < |rows| && rows[i].birthday.Some? &&
    Occurrence(rows[i].birthday.value, today).Ok? &&
    e == Entry(rows[i].name, Occurrence(rows[i].birthday.value, today).value)
  }

  /** The query on one more row is the query on the others followed by that row's step. */
  lemma UpcomingSnoc(rows: seq<Row>, row: Row, today: Date)
    requires ValidDate(today) && RowsValid(rows)
    requires row.birthday.Some? ==> ValidDate(row.birthday.value)
    ensures RowsValid(rows + [row])
    ensures Upcoming(rows + [row], today) ==
            match Upcoming(rows, today)
            case Err(e) => Err(e)
            case Ok(acc) =>
              match Consider(row, today)
              case Err(e) => Err(e)
              case Ok(None) => Ok(acc)
              case Ok(Some(x)) => Ok(acc + [x])
  {
    assert (rows + [row])[..|rows|] == rows;
  }

  /** One more row in a running query: the step's error ends the query over all the
      rows, otherwise the step's entry, if any, is appended. */
  lemma {:induction false} UpcomingStep(rows: seq<Row>, i: nat, today: Date, acc: seq<Entry>)
    requires ValidDate(today) && RowsValid(rows) && i < |rows|
    requires RowsValid(rows[..i]) && Upcoming(rows[..i], today) == Ok(acc)
    ensures RowsValid(rows[..i + 1])
    ensures match Consider(rows[i], today)
            case Err(e) => Upcoming(rows, today) == Err(e)
            case Ok(None) => Upcoming(rows[..i + 1], today) == Ok(acc)
            case Ok(Some(x)) => Upcoming(rows[..i + 1], today) == Ok(acc + [x])
  {
    assert rows[..i + 1] == rows[..i] + [rows[i]];
    UpcomingSnoc(rows[..i], rows[i], today);
    if Consider(rows[i], today).Err? {
      UpcomingErrorSticks(rows, i + 1, today);
    }
  }

  /** Once the rows up to n make the query raise, the later rows are never looked at. */
  lemma {:induction false} UpcomingErrorSticks(rows: seq<Row>, n: nat, today: Date)
    requires ValidDate(today) && RowsValid(rows) && n <= |rows|
    requires RowsValid(rows[..n]) && Upcoming(rows[..n], today).Err?
    ensures Upcoming(rows, today) == Upcoming(rows[..n], today)
    decreases |rows| - n
  {
    if n < |rows| {
      var m := |rows| - 1;
      RowsValidPrefix(rows, m);
      assert rows[..m][..n] == rows[..n];
      UpcomingErrorSticks(rows[..m], n, today);
    } else {
      assert rows[..n] == rows;
    }
  }

  /** Every entry of a successful query lies in the window and celebrates a row that
      has a birthday: the same day and month, in today's year or, when that day has
      passed, in the next year. */
  lemma UpcomingSound(rows: seq<Row>, today: Date, k: nat)
    requires ValidDate(today) && RowsValid(rows) && Upcoming(rows, today).Ok?
    requires k < |Upcoming(rows, today).value|
    ensures var e := Upcoming(rows, today).value[k];
            InWindow(e.date, today) && NotAfter(today, e.date) &&
            exists i :: 0 <= i < |rows| && rows[i].name == e.name && rows[i].birthday.Some? &&
              var b := rows[i].birthday.value;
              e.date.month == b.month && e.date.day == b.day &&
              e.date.year == (if Before(Date(today.year, b.month, b.day), today) then today.year + 1 else today.year)
  {
    UpcomingPicks(rows, today);
    PickedSpec(rows, today);
    var i := Picked(rows, today)[k];
    assert PicksEntry(rows, today, i, Upcoming(rows, today).value[k]);
    assert Selected(rows[i], today);
  }

  // ---------------------------------------------------------------------------
  // Worked cases

  /** A birthday five days ahead is kept with this year's date. */
  lemma AheadThisYear()
    ensures Upcoming([Row("Ann", Some(Date(1990, 6, 15)))], Date(2024, 6, 10)) ==
            Ok([Entry("Ann", Date(2024, 6, 15))])
  {
    var today, row := Date(2024, 6, 10), Row("Ann", Some(Date(1990, 6, 15)));
    assert AddDays(today, WindowDays) == Date(2024, 6, 17);
    assert Plus(today, WindowDays) == Ok(Date(2024, 6, 17));
    assert Occurrence(Date(1990, 6, 15), today) == Ok(Date(2024, 6, 15));
    assert Consider(row, today) == Ok(Some(Entry("Ann", Date(2024, 6, 15))));
    assert [row][..0] == [];
    assert Upcoming([], today) == Ok([]);
    assert [] + [Entry("Ann", Date(2024, 6, 15))] == [Entry("Ann", Date(2024, 6, 15))];
  }

  /** A birthday five days past moves to next year, which is outside the window. */
  lemma PassedRollsToNextYear()
    ensures Occurrence(Date(1990, 6, 15), Date(2024, 6, 20)) == Ok(Date(2025, 6, 15))
    ensures Upcoming([Row("Ann", Some(Date(1990, 6, 15)))], Date(2024, 6, 20)) == Ok([])
  {
  }

  /** Near the end of the year the window reaches into January of the next year. */
  lemma WindowCrossesNewYear()
    ensures Upcoming([Row("Bob", Some(Date(1985, 1, 2)))], Date(2024, 12, 28)) ==
            Ok([Entry("Bob", Date(2025, 1, 2))])
  {
    var today, row := Date(2024, 12, 28), Row("Bob", Some(Date(1985, 1, 2)));
    assert AddDays(today, WindowDays) == Date(2025, 1, 4);
    assert Plus(today, WindowDays) == Ok(Date(2025, 1, 4));
    assert Occurrence(Date(1985, 1, 2), today) == Ok(Date(2025, 1, 2));
    assert Consider(row, today) == Ok(Some(Entry("Bob", Date(2025, 1, 2))));
    assert [row][..0] == [];
    assert Upcoming([], today) == Ok([]);
    assert [] + [Entry("Bob", Date(2025, 1, 2))] == [Entry("Bob", Date(2025, 1, 2))];
  }

  /** With today 1 March 2024 the window ends on 8 March: a birthday on either end is
      kept, one on 9 March is not. */
  lemma MarchSteps()
    ensures Consider(Row("Cy", Some(Date(2000, 3, 1))), Date(2024, 3, 1)) == Ok(Some(Entry("Cy", Date(2024, 3, 1))))
    ensures Consider(Row("Di", Some(Date(2001, 3, 8))), Date(2024, 3, 1)) == Ok(Some(Entry("Di", Date(2024, 3, 8))))
    ensures Consider(Row("Ed", Some(Date(2002, 3, 9))), Date(2024, 3, 1)) == Ok(None)
  {
    var today := Date(2024, 3, 1);
    assert AddDays(today, WindowDays) == Date(2024, 3, 8);
    assert Plus(today, WindowDays) == Ok(Date(2024, 3, 8));
  }

  /** Both ends of the window are included: today and seven days later. */
  lemma WindowEndsIncluded()
    ensures Upcoming([Row("Cy", Some(Date(2000, 3, 1))), Row("Di", Some(Date(2001, 3, 8))),
                      Row("Ed", Some(Date(2002, 3, 9)))], Date(2024, 3, 1)) ==
            Ok([Entry("Cy", Date(2024, 3, 1)), Entry("Di", Date(2024, 3, 8))])
  {
    var today := Date(2024, 3, 1);
    var cy, di, ed := Row("Cy", Some(Date(2000, 3, 1))), Row("Di", Some(Date(2001, 3, 8))),
                      Row("Ed", Some(Date(2002, 3, 9)));
    var e1, e2 := Entry("Cy", Date(2024, 3, 1)), Entry("Di", Date(2024, 3, 8));
    MarchSteps();
    UpcomingSnoc([], cy, today);
    assert [] + [cy] == [cy] && [] + [e1] == [e1];
    UpcomingSnoc([cy], di, today);
    assert [cy] + [di] == [cy, di] && [e1] + [e2] == [e1, e2];
    UpcomingSnoc([cy, di], ed, today);
    assert [cy, di] + [ed] == [cy, di, ed];
  }

  /** A 29 February birthday makes the query raise in a common year. */
  lemma LeapDayRaises()
    ensures Upcoming([Row("Fay", Some(Date(2000, 2, 29)))], Date(2025, 2, 20)) == Err(DayOutOfRange)
  {
  }
}
