/** Optional values, failures and the error kinds the contact book raises. */
module Outcomes {

  /** A value that may be absent, in place of Python's None. */
  datatype Option<T> = None | Some(value: T)

  /** The exceptions raised by the data model, one constructor per distinct cause. */
  datatype Error =
    | EmptyName                    // ValueError from Name: nothing left after stripping
    | PhoneFormat                  // ValueError from Phone / Phone.edit: not ten digits
    | DateFormat                   // ValueError from Birthday: not DD.MM.YYYY or no such date
    | FutureBirthday               // ValueError from Birthday: later than today
    | PhoneNotFound(phone: string) // ValueError from Record.find_phone
    | RecordNotFound(name: string) // KeyError from AddressBook.delete
    | YearOutOfRange               // ValueError from date.replace: year outside 1..9999
    | DayOutOfRange                // ValueError from date.replace: 29 February of a common year
    | DateOverflow                 // OverflowError from date + timedelta past 31.12.9999

  /** The result of an operation that produces a value or raises. */
  datatype Result<T> = Ok(value: T) | Err(error: Error)

  /** The result of an operation that returns None or raises. */
  datatype Outcome = Pass | Fail(error: Error)
}
