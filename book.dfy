/** AddressBook: a dictionary from contact name to Record. A Python dict remembers the
    order in which its keys were first inserted; `order` keeps that order. */
module Book {
  import opened Outcomes
  import opened Dates
  import opened Fields
  import opened Records
  import opened Query

  /** No key occurs twice. */
  predicate Distinct(keys: seq<string>)
  {
    forall i, j :: 0 <= i < j < |keys| ==> keys[i] != keys[j]
  }

  /** The keys without k, the others in their order, as `del` leaves a dict's order. */
  function Erase(keys: seq<string>, k: string): (r: seq<string>)
    ensures forall x :: x in r <==> x in keys && x != k
    ensures Distinct(keys) ==> Distinct(r)
    ensures Distinct(keys) && k in keys ==> |r| == |keys| - 1
    ensures k !in keys ==> r == keys
  {
    if keys == [] then []
    else if keys[0] == k then Erase(keys[1..], k)
    else
      assert Distinct(keys) ==> keys[0] !in keys[1..];
      [keys[0]] + Erase(keys[1..], k)
  }

  /** What the query reads from a record: its name and its birthday's date. */
  function RowOf(rec: Record): Row
    reads rec
  {
    Row(rec.name.value, if rec.birthday.Some? then Some(rec.birthday.value.value) else None)
  }

  /** The records of m under the given keys, in the keys' order. */
  function RowsOf(keys: seq<string>, m: map<string, Record>): (rows: seq<Row>)
    requires forall k :: k in keys ==> k in m
    reads m.Values
    ensures |rows| == |keys|
    ensures forall i :: 0 <= i < |keys| ==> rows[i] == RowOf(m[keys[i]])
  {
    if keys == [] then []
    else RowsOf(keys[..|keys| - 1], m) + [RowOf(m[keys[|keys| - 1]])]
  }

  class AddressBook {
    var data: map<string, Record>
    var order: seq<string>

    /** Each key is its record's own name, and `order` lists every key once. */
    ghost predicate KeysMatch()
      reads this
    {
      (forall k :: k in data ==> data[k].name.value == k) &&
      Distinct(order) && (forall k :: k in data <==> k in order)
    }

    /** Every stored record keeps its fields' formats. */
    ghost predicate RecordsValid()
      reads this, data.Values
    {
      forall k :: k in data ==> data[k].Valid()
    }

    ghost predicate Valid()
      reads this, data.Values
    {
      KeysMatch() && RecordsValid()
    }

    /** The records as data.values() yields them. */
    function Rows(): seq<Row>
      reads this, data.Values
      requires KeysMatch()
    {
      RowsOf(order, data)
    }

    /** An empty book. */
    constructor ()
      ensures Valid() && data == map[] && order == []
    {
      data := map[];
      order := [];
    }

    /** add_record: stores the record under its own name, replacing any record of that
        name; a replaced key keeps its place in the order, a new key goes last. */
    method AddRecord(record: Record)
      requires Valid() && record.Valid()
      modifies this
      ensures Valid()
      ensures data == old(data)[record.name.value := record]
      ensures order == if record.name.value in old(data) then old(order) else old(order) + [record.name.value]
    {
      var key := record.name.value;
      if key !in data {
        order := order + [key];
      }
      data := data[key := record];
    }

    /** find: the record stored under the name, None for an unknown name; a stored
        record always carries the name it was found by. */
    function Find(name: string): (r: Option<Record>)
      reads this
      ensures r.Some? <==> name in data
      ensures r.Some? ==> r.value == data[name]
      ensures KeysMatch() && r.Some? ==> r.value.name.value == name
    {
      if name in data then Some(data[name]) else None
    }

    /** delete: removes that one name, raising KeyError when it is absent. */
    method Delete(name: string) returns (r: Outcome)
      requires Valid()
      modifies this
      ensures Valid()
      ensures r == if name in old(data) then Pass else Fail(RecordNotFound(name))
      ensures data == old(data) - {name}
      ensures order == Erase(old(order), name)
    {
      if name !in data {
        return Fail(RecordNotFound(name));
      }
      data := data - {name};
      order := Erase(order, name);
      return Pass;
    }

    /** get_upcoming_birthdays on the day `today`: the entries of Upcoming over the
        records in the book's order; every entry names a stored record with a birthday
        of the same day and month and lies between today and seven days later. */
    method GetUpcomingBirthdays(today: Date) returns (r: Result<seq<Entry>>)
      requires Valid() && ValidDate(today)
      ensures RowsValid(Rows()) && r == Upcoming(Rows(), today)
      ensures r.Ok? ==> forall e :: e in r.value ==>
                e.name in data && data[e.name].birthday.Some? && InWindow(e.date, today) &&
                e.date.month == data[e.name].birthday.value.value.month &&
                e.date.day == data[e.name].birthday.value.value.day
    {
      ghost var rows := Rows();
      BookRowsValid(order, data);
      var upcoming: seq<Entry> := [];
      var i := 0;
      while i < |order|
        invariant 0 <= i <= |order|
        invariant RowsValid(rows[..i])
        invariant Upcoming(rows[..i], today) == Ok(upcoming)
      {
        var record := data[order[i]];
        assert rows[i] == RowOf(record);
        UpcomingStep(rows, i, today, upcoming);
        var step: Result<Option<Entry>> := Ok(None);
        if record.birthday.Some? {
          var occurrence := Occurrence(record.birthday.value.value, today);
          if occurrence.Err? {
            step := Err(occurrence.error);
          } else if NotAfter(today, occurrence.value) {
            var last := Plus(today, WindowDays);
            if last.Err? {
              step := Err(last.error);
            } else if NotAfter(occurrence.value, last.value) {
              step := Ok(Some(Entry(record.name.value, occurrence.value)));
            }
          }
        }
        assert step == Consider(rows[i], today);
        match step {
          case Err(e) =>
            return Err(e);
          case Ok(None) =>
          case Ok(Some(x)) =>
            upcoming := upcoming + [x];
        }
        i := i + 1;
      }
      assert rows[..i] == rows;
      r := Ok(upcoming);
      EntriesAreStored(order, data, today);
    }
  }

  /** Records that keep their formats give rows whose birthdays are calendar dates. */
  lemma BookRowsValid(keys: seq<string>, m: map<string, Record>)
    requires forall k :: k in keys ==> k in m
    requires forall k :: k in m ==> m[k].Valid()
    ensures RowsValid(RowsOf(keys, m))
  {
    var rows := RowsOf(keys, m);
    forall i | 0 <= i < |rows| && rows[i].birthday.Some?
      ensures ValidDate(rows[i].birthday.value)
    {
      assert m[keys[i]].Valid();
    }
  }

  /** Each entry of a successful query over the records of m names a record of m that
      has a birthday with the entry's day and month, and lies in the window. */
  lemma EntriesAreStored(keys: seq<string>, m: map<string, Record>, today: Date)
    requires forall k :: k in keys ==> k in m
    requires forall k :: k in m ==> m[k].name.value == k
    requires ValidDate(today) && RowsValid(RowsOf(keys, m)) && Upcoming(RowsOf(keys, m), today).Ok?
    ensures forall e :: e in Upcoming(RowsOf(keys, m), today).value ==>
              e.name in m && m[e.name].birthday.Some? && InWindow(e.date, today) &&
              e.date.month == m[e.name].birthday.value.value.month &&
              e.date.day == m[e.name].birthday.value.value.day
  {
    var rows := RowsOf(keys, m);
    var es := Upcoming(rows, today).value;
    forall e | e in es
      ensures e.name in m && m[e.name].birthday.Some? && InWindow(e.date, today) &&
              e.date.month == m[e.name].birthday.value.value.month &&
              e.date.day == m[e.name].birthday.value.value.day
    {
      var k :| 0 <= k < |es| && es[k] == e;
      UpcomingSound(rows, today, k);
      var i :| 0 <= i < |rows| && rows[i].name == e.name && rows[i].birthday.Some? &&
               e.date.month == rows[i].birthday.value.month && e.date.day == rows[i].birthday.value.day;
      assert rows[i] == RowOf(m[keys[i]]);
    }
  }
}
