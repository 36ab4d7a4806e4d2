/**
 * The exceptions that the business core throws, one constructor per exception class.
 * The HTTP status each one is mapped to is left to the controllers and not modelled.
 */
module Errors {
  import opened Wrappers

  /** A calendar day, as `LocalDate.toEpochDay()` counts it; the order of days is `<`. */
  type Date = int

  datatype Error =
    | NameInvalid(name: Option<string>)       // NameInvalidException(name)
    | UserNotFound(userName: Option<string>)  // UserNotFoundException(userName)
    | UserNameTaken(userName: Option<string>) // UserNameTakenException(userName)
    | EntryNotFound(journalEntryId: int)      // EntryNotFoundException(journalEntryId)
    | EntryAlreadyExists(date: Date)          // EntryAlreadyExistsException(date)
    | NullEntry                               // IllegalArgumentException("Entry is null.")
    | EntryNotFromToday                       // RuntimeException("Entry is not from today.")
    | NullPointer                             // NullPointerException from dereferencing null
}
