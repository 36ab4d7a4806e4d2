/**
 * The service layer: `UserService` (validation, lookup, creation, update, deletion and
 * saving of users) and `JournalService` (listing, adding, reading, updating and deleting
 * journal entries). Each service method checks its names and looks its objects up before
 * it changes anything, so every failure leaves the database as it was.
 *
 * The three iterations of both services differ only in signatures: the newest
 * `createUser` takes the user name apart from a `SimpleUserDTO`, and the oldest
 * `JournalService` has no update or delete and returns nothing from `addEntry`.
 */
module Services {
  import opened Wrappers
  import opened Errors
  import opened Names
  import opened Journals
  import opened Users
  import opened Listing
  import opened Store

  /** The stored user named `userName`, if there is one. */
  ghost function UserNamed(db: Database, userName: Option<string>): set<User>
    reads db
  {
    if userName.Some? && userName.value in db.users then {db.users[userName.value]} else {}
  }

  /** The journal of the stored user named `userName`, if there is one. */
  ghost function JournalNamed(db: Database, userName: Option<string>): set<Journal>
    reads db
  {
    if userName.Some? && userName.value in db.users then {db.users[userName.value].journal} else {}
  }

  /** The entries of the journal of the stored user named `userName`, if there is one. */
  ghost function EntriesNamed(db: Database, userName: Option<string>): set<JournalEntry>
    reads db, JournalNamed(db, userName)
  {
    if userName.Some? && userName.value in db.users then db.users[userName.value].journal.journalEntries else {}
  }

  class UserService {
    /** The `UserRepository` the service works on. */
    const db: Database

    constructor (db: Database)
      ensures this.db == db
    {
      this.db := db;
    }

    /**
     * The state in which `saveUser(userName)` may be called: the invariant, except that the
     * journal of the user with that (valid) name may hold entries not saved yet.
     */
    ghost predicate Saveable(userName: Option<string>)
      reads this, db, db.Repr
    {
      if ValidateName(userName) then db.Pending(userName.value) else db.Valid()
    }

    /**
     * `getUserByUserName`: an invalid name is rejected before any lookup, an unknown one
     * is not found, and otherwise the stored user, which carries that very name, is returned.
     */
    method GetUserByUserName(userName: Option<string>) returns (r: Result<User, Error>)
      ensures !ValidateName(userName) ==> r == Failure(NameInvalid(userName))
      ensures ValidateName(userName) && userName.value !in db.users ==> r == Failure(UserNotFound(userName))
      ensures ValidateName(userName) && userName.value in db.users ==> r == Success(db.users[userName.value])
      ensures db.Valid() && r.Success? ==> r.value.userName == userName && r.value.Valid()
    {
      if !ValidateName(userName) {
        return Failure(NameInvalid(userName));
      }
      if userName.value !in db.users {
        return Failure(UserNotFound(userName));
      }
      if db.Valid() {
        db.StoredUserFacts(userName.value);
      }
      return Success(db.users[userName.value]);
    }

    /**
     * `deleteUserByUserName`: after the name check and the lookup, the user goes, and with
     * it its journal and every entry of that journal; no other user or entry is touched.
     */
    method DeleteUserByUserName(userName: Option<string>) returns (r: Outcome<Error>)
      requires db.Valid()
      modifies db
      ensures db.Valid() && db.Repr == old(db.Repr)
      ensures !ValidateName(userName) ==> r == Fail(NameInvalid(userName))
      ensures ValidateName(userName) && userName.value !in old(db.users) ==> r == Fail(UserNotFound(userName))
      ensures ValidateName(userName) && userName.value in old(db.users) ==> r == Pass
      ensures r.Fail? ==> unchanged(db)
      ensures r.Pass? ==> db.users == old(db.users) - {userName.value}
      ensures r.Pass? ==> forall k :: k in db.entries <==>
                            k in old(db.entries) && old(db.entries[k].journal) != old(db.users[userName.value].journal)
      ensures forall k | k in db.entries :: db.entries[k] == old(db.entries[k])
    {
      if !ValidateName(userName) {
        return Fail(NameInvalid(userName));
      }
      if userName.value !in db.users {
        return Fail(UserNotFound(userName));
      }
      db.DeleteUser(userName.value);
      return Pass;
    }

    /**
     * `updateUser`: the user name and both new names are validated, in that order, before
     * the lookup; then the found user gets the new first and last name and is saved. Only
     * those two names of that one user change.
     */
    method UpdateUser(userName: Option<string>, updateUserDTO: UpdateUserDTO) returns (r: Result<User, Error>)
      requires db.Valid()
      modifies db, UserNamed(db, userName), EntriesNamed(db, userName)
      ensures db.Valid() && db.Repr == old(db.Repr)
      ensures db.users == old(db.users) && db.entries == old(db.entries)
      ensures !ValidateAllNames(userName, updateUserDTO.firstName, updateUserDTO.lastName) ==>
                r == Failure(NameInvalid(FirstInvalidName(userName, updateUserDTO.firstName, updateUserDTO.lastName).value))
      ensures ValidateAllNames(userName, updateUserDTO.firstName, updateUserDTO.lastName) && userName.value !in db.users ==>
                r == Failure(UserNotFound(userName))
      ensures ValidateAllNames(userName, updateUserDTO.firstName, updateUserDTO.lastName) && userName.value in db.users ==>
                r == Success(db.users[userName.value])
      ensures r.Failure? ==> unchanged(db) && db.UserView() == old(db.UserView())
      ensures r.Success? ==>
                db.UserView() == old(db.UserView())[userName.value := old(db.UserView()[userName.value])
                                                    .(firstName := updateUserDTO.firstName, lastName := updateUserDTO.lastName)]
      ensures db.EntryView() == old(db.EntryView())
    {
      FirstInvalidNameIsNoneIffAllValid(userName, updateUserDTO.firstName, updateUserDTO.lastName);
      var invalid := FirstInvalidName(userName, updateUserDTO.firstName, updateUserDTO.lastName);
      if invalid.Some? {
        return Failure(NameInvalid(invalid.value));
      }
      if userName.value !in db.users {
        return Failure(UserNotFound(userName));
      }
      var found := db.users[userName.value];
      ApplyUpdate(userName.value, updateUserDTO);
      return Success(found);
    }

    /**
     * `createUser(newUserDTO)`: the three names are validated in the order user name,
     * first name, last name; a taken user name is rejected; otherwise a new user with
     * those names and an empty journal is stored under its user name with fresh ids.
     */
    method CreateUser(newUserDTO: NewUserDTO) returns (r: Result<User, Error>)
      requires db.Valid()
      modifies db
      ensures db.Valid()
      ensures !ValidateAllNames(newUserDTO.userName, newUserDTO.firstName, newUserDTO.lastName) ==>
                r == Failure(NameInvalid(FirstInvalidName(newUserDTO.userName, newUserDTO.firstName, newUserDTO.lastName).value))
      ensures (ValidateAllNames(newUserDTO.userName, newUserDTO.firstName, newUserDTO.lastName)
               && newUserDTO.userName.value in old(db.users)) ==> r == Failure(UserNameTaken(newUserDTO.userName))
      ensures (ValidateAllNames(newUserDTO.userName, newUserDTO.firstName, newUserDTO.lastName)
               && newUserDTO.userName.value !in old(db.users)) ==> r.Success?
      ensures r.Failure? ==> unchanged(db)
      ensures r.Success? ==> fresh(r.value) && fresh(r.value.journal) && r.value.journal.journalEntries == {}
      ensures r.Success? ==> r.value.ToReturnUserDTO()
                             == ReturnUserDTO(Some(old(db.nextId)), newUserDTO.userName, newUserDTO.firstName, newUserDTO.lastName)
      ensures r.Success? ==> db.users == old(db.users)[newUserDTO.userName.value := r.value] && db.entries == old(db.entries)
      ensures r.Success? ==> db.UserView() == old(db.UserView())[newUserDTO.userName.value := r.value.ToReturnUserDTO()]
    {
      r := CreateNamedUser(newUserDTO.userName, UpdateUserDTO(newUserDTO.firstName, newUserDTO.lastName));
    }

    /**
     * `createUser(userName, simpleUserDTO)` of the newest iteration: the same checks in the
     * same order, with the user name passed apart from the other two names.
     */
    method CreateNamedUser(userName: Option<string>, simpleUserDTO: SimpleUserDTO) returns (r: Result<User, Error>)
      requires db.Valid()
      modifies db
      ensures db.Valid()
      ensures !ValidateAllNames(userName, simpleUserDTO.firstName, simpleUserDTO.lastName) ==>
                r == Failure(NameInvalid(FirstInvalidName(userName, simpleUserDTO.firstName, simpleUserDTO.lastName).value))
      ensures ValidateAllNames(userName, simpleUserDTO.firstName, simpleUserDTO.lastName) && userName.value in old(db.users) ==>
                r == Failure(UserNameTaken(userName))
      ensures ValidateAllNames(userName, simpleUserDTO.firstName, simpleUserDTO.lastName) && userName.value !in old(db.users) ==>
                r.Success?
      ensures r.Failure? ==> unchanged(db)
      ensures r.Success? ==> fresh(r.value) && fresh(r.value.journal) && r.value.journal.journalEntries == {}
      ensures r.Success? ==> r.value.ToReturnUserDTO()
                             == ReturnUserDTO(Some(old(db.nextId)), userName, simpleUserDTO.firstName, simpleUserDTO.lastName)
      ensures r.Success? ==> db.users == old(db.users)[userName.value := r.value] && db.entries == old(db.entries)
      ensures r.Success? ==> db.UserView() == old(db.UserView())[userName.value := r.value.ToReturnUserDTO()]
    {
      FirstInvalidNameIsNoneIffAllValid(userName, simpleUserDTO.firstName, simpleUserDTO.lastName);
      var invalid := FirstInvalidName(userName, simpleUserDTO.firstName, simpleUserDTO.lastName);
      if invalid.Some? {
        return Failure(NameInvalid(invalid.value));
      }
      if userName.value in db.users {
        return Failure(UserNameTaken(userName));
      }
      ghost var view := db.UserView();
      var user := new User(userName, simpleUserDTO.firstName, simpleUserDTO.lastName);
      assert db.UserView() == view;
      db.Persist(user);
      return Success(user);
    }

    /**
     * `saveUser`: after the name check and the lookup, the user is saved, and the merge
     * cascades to its journal: every entry of the journal not saved yet is stored under a
     * fresh id, and nothing stored before changes.
     */
    method SaveUser(userName: Option<string>) returns (r: Result<User, Error>)
      requires Saveable(userName)
      modifies db, EntriesNamed(db, userName)
      ensures db.Valid() && db.users == old(db.users) && db.Repr == old(db.Repr)
      ensures !ValidateName(userName) ==> r == Failure(NameInvalid(userName))
      ensures ValidateName(userName) && userName.value !in db.users ==> r == Failure(UserNotFound(userName))
      ensures ValidateName(userName) && userName.value in db.users ==> r == Success(db.users[userName.value])
      ensures r.Failure? ==> unchanged(db)
      ensures r.Success? ==> forall k | k in old(db.entries) :: k in db.entries && db.entries[k] == old(db.entries[k])
      ensures r.Success? ==> forall k | k in db.entries && k !in old(db.entries) ::
                               db.entries[k] in old(db.UnsavedOf(userName.value))
      ensures r.Success? ==> forall e | e in old(db.UnsavedOf(userName.value)) ::
                               e.journalEntryId.Some? && e.journalEntryId.value !in old(db.entries)
                               && e.journalEntryId.value in db.entries && db.entries[e.journalEntryId.value] == e
      ensures r.Success? ==> forall e | e in db.users[userName.value].journal.journalEntries ::
                               e.journal == old(e.journal) && e.Content() == old(e.Content())
      ensures db.UserView() == old(db.UserView())
    {
      if !ValidateName(userName) {
        return Failure(NameInvalid(userName));
      }
      var got := GetUserByUserName(userName);
      if got.Failure? {
        return got;
      }
      assert db.Consistent(db.UnsavedOf(userName.value));
      db.Merge(userName.value);
      return got;
    }

    /**
     * The body of `updateUser`'s lambda on the found user: set the two validated names,
     * then save the user, which finds nothing new to store.
     */
    method ApplyUpdate(name: string, updateUserDTO: UpdateUserDTO)
      requires db.Valid() && name in db.users
      requires ValidateName(updateUserDTO.firstName) && ValidateName(updateUserDTO.lastName)
      modifies db, db.users[name], db.users[name].journal.journalEntries
      ensures db.Valid() && db.Repr == old(db.Repr)
      ensures db.users == old(db.users) && db.entries == old(db.entries)
      ensures db.UserView() == old(db.UserView())[name := old(db.UserView()[name])
                                                  .(firstName := updateUserDTO.firstName, lastName := updateUserDTO.lastName)]
      ensures db.EntryView() == old(db.EntryView())
    {
      var user := db.users[name];
      db.StoredUserFacts(name);
      ghost var before := user.ToReturnUserDTO();
      ghost var view := db.UserView();
      assert view[name] == before;
      label Before:
      var _ := user.SetFirstName(updateUserDTO.firstName);
      var _ := user.SetLastName(updateUserDTO.lastName);
      assert user.ToReturnUserDTO() == before.(firstName := updateUserDTO.firstName, lastName := updateUserDTO.lastName);
      db.RenameValid@Before(name);
      db.RenameView@Before(name);
      db.SaveClean(name);
    }
  }

  class JournalService {
    /** The `JournalEntryRepository` the service works on: the same database as the user service's. */
    const db: Database
    const userService: UserService

    constructor (db: Database, userService: UserService)
      requires userService.db == db
      ensures this.db == db && this.userService == userService
    {
      this.db := db;
      this.userService := userService;
    }

    /** Both services work on one database, which keeps its invariant. */
    ghost predicate Valid()
      reads this, db, db.Repr
    {
      userService.db == db && db.Valid()
    }

    /**
     * `getEntries`: the user is looked up as `getUserByUserName` does, and the listing holds
     * one `(id, date)` row for each entry of that user's journal and nothing else, newest first.
     */
    method GetEntries(userName: Option<string>) returns (r: Result<seq<IdDatePair>, Error>)
      requires Valid()
      ensures !ValidateName(userName) ==> r == Failure(NameInvalid(userName))
      ensures ValidateName(userName) && userName.value !in db.users ==> r == Failure(UserNotFound(userName))
      ensures ValidateName(userName) && userName.value in db.users ==> r.Success?
      ensures r.Success? ==> DateDescending(r.value) && IdsDistinct(r.value)
      ensures r.Success? ==> forall p :: p in r.value <==>
                p.id in db.entries && db.entries[p.id] in db.users[userName.value].journal.journalEntries
                && p.date == db.entries[p.id].date
      ensures r.Success? ==> forall e | e in db.users[userName.value].journal.journalEntries ::
                e.journalEntryId.Some? && IdDatePair(e.journalEntryId.value, e.date) in r.value
    {
      var got := userService.GetUserByUserName(userName);
      if got.Failure? {
        return Failure(got.error);
      }
      var rows := db.GetEntriesByJournalId(got.value.journal.journalId);
      db.OwnJournalQuery(userName.value);
      return Success(rows);
    }

    /**
     * `addEntry`: the user is looked up first; then the user's journal admits the entry
     * (or rejects it, changing nothing) and the user is saved, which stores the new entry
     * under a fresh id. The result is the very entry passed in.
     */
    method AddEntry(userName: Option<string>, newEntry: JournalEntry?, today: Date) returns (r: Result<JournalEntry, Error>)
      requires Valid()
      requires newEntry != null ==> newEntry !in db.Repr && newEntry.journalEntryId == None && newEntry.journal == null
      modifies db, JournalNamed(db, userName), EntriesNamed(db, userName), newEntry
      ensures Valid() && db.users == old(db.users)
      ensures !ValidateName(userName) ==> r == Failure(NameInvalid(userName))
      ensures ValidateName(userName) && userName.value !in db.users ==> r == Failure(UserNotFound(userName))
      ensures ValidateName(userName) && userName.value in db.users && newEntry == null ==> r == Failure(NullEntry)
      ensures (ValidateName(userName) && userName.value in db.users && newEntry != null
               && newEntry.date != today) ==> r == Failure(EntryNotFromToday)
      ensures (ValidateName(userName) && userName.value in db.users && newEntry != null && newEntry.date == today
               && old(db.users[userName.value].journal.HasEntryForToday(today))) ==> r == Failure(EntryAlreadyExists(today))
      ensures (ValidateName(userName) && userName.value in db.users && newEntry != null && newEntry.date == today
               && !old(db.users[userName.value].journal.HasEntryForToday(today))) ==> r == Success(newEntry)
      ensures r.Failure? ==> unchanged(db) && unchanged(JournalNamed(db, userName)) && unchanged(EntriesNamed(db, userName))
                             && (newEntry != null ==> unchanged(newEntry))
      ensures r.Success? ==>
                var j := db.users[userName.value].journal;
                && j.journalEntries == old(j.journalEntries) + {newEntry} && newEntry.journal == j
                && newEntry.journalEntryId.Some? && newEntry.journalEntryId.value !in old(db.entries)
                && db.entries == old(db.entries)[newEntry.journalEntryId.value := newEntry]
                && newEntry.Content() == old(newEntry.Content())
                && (forall x | x in old(j.journalEntries) :: x.journal == old(x.journal) && x.Content() == old(x.Content()))
                && db.EntryView() == old(db.EntryView())[newEntry.journalEntryId.value := EntryRow(today, j, newEntry.Content())]
      ensures r.Failure? ==> db.EntryView() == old(db.EntryView())
      ensures db.UserView() == old(db.UserView())
    {
      if !ValidateName(userName) {
        return Failure(NameInvalid(userName));
      }
      if userName.value !in db.users {
        return Failure(UserNotFound(userName));
      }
      r := AdmitAndSave(userName.value, newEntry, today);
    }

    /**
     * The part of `addEntry` after the user named `name` is found: the user's journal
     * admits the entry, and saving the user stores it under the next id.
     */
    method AdmitAndSave(name: string, newEntry: JournalEntry?, today: Date) returns (r: Result<JournalEntry, Error>)
      requires Valid() && name in db.users
      requires newEntry != null ==> newEntry !in db.Repr && newEntry.journalEntryId == None && newEntry.journal == null
      modifies db, db.users[name].journal, db.users[name].journal.journalEntries, newEntry
      ensures Valid() && db.users == old(db.users)
      ensures r == if newEntry == null then Failure(NullEntry)
                   else if newEntry.date != today then Failure(EntryNotFromToday)
                   else if old(db.users[name].journal.HasEntryForToday(today)) then Failure(EntryAlreadyExists(today))
                   else Success(newEntry)
      ensures r.Failure? ==> unchanged(db) && unchanged(db.users[name].journal) && unchanged(db.users[name].journal.journalEntries)
                             && (newEntry != null ==> unchanged(newEntry))
      ensures r.Success? ==>
                var j := db.users[name].journal;
                && j.journalEntries == old(j.journalEntries) + {newEntry} && newEntry.journal == j
                && newEntry.journalEntryId.Some? && newEntry.journalEntryId.value !in old(db.entries)
                && db.entries == old(db.entries)[newEntry.journalEntryId.value := newEntry]
                && newEntry.Content() == old(newEntry.Content())
                && (forall x | x in old(j.journalEntries) :: x.journal == old(x.journal) && x.Content() == old(x.Content()))
                && db.EntryView() == old(db.EntryView())[newEntry.journalEntryId.value := EntryRow(today, j, newEntry.Content())]
      ensures db.UserView() == old(db.UserView())
    {
      var added := Admit(name, newEntry, today);
      if added.Fail? {
        return Failure(added.error);
      }
      assert db.EntryView() == old(db.EntryView());
      SaveAdmitted(name, newEntry);
      return Success(newEntry);
    }

    /**
     * `journal.addEntry` on the journal of the stored user `name`: on success the journal
     * holds the entry, bound to it and still without an id, as the one entry left to save.
     */
    method Admit(name: string, newEntry: JournalEntry?, today: Date) returns (r: Outcome<Error>)
      requires Valid() && name in db.users
      requires newEntry != null ==> newEntry !in db.Repr && newEntry.journalEntryId == None && newEntry.journal == null
      modifies db`Repr, db.users[name].journal, newEntry
      ensures r == if newEntry == null then Fail(NullEntry)
                   else if newEntry.date != today then Fail(EntryNotFromToday)
                   else if old(db.users[name].journal.HasEntryForToday(today)) then Fail(EntryAlreadyExists(today))
                   else Pass
      ensures r.Fail? ==> unchanged(db) && unchanged(db.users[name].journal) && (newEntry != null ==> unchanged(newEntry))
      ensures r.Pass? ==>
                var j := db.users[name].journal;
                && j.journalEntries == old(j.journalEntries) + {newEntry} && newEntry.journal == j
                && newEntry.Content() == old(newEntry.Content())
                && db.Pending(name) && db.UnsavedOf(name) == {newEntry} && ValidateName(Some(name))
      ensures db.UserView() == old(db.UserView()) && db.EntryView() == old(db.EntryView())
    {
      var journal := db.users[name].journal;
      db.StoredUserFacts(name);
      label Before:
      r := journal.AddEntry(newEntry, today);
      if r.Fail? {
        return;
      }
      db.Adopt(newEntry);
      db.AdmitValid@Before(Admission(name, newEntry));
      db.UsersKept@Before();
      db.AdmitKeepsEntries@Before(Admission(name, newEntry));
    }

    /**
     * `saveUser` on the user named `name` once its journal has admitted `e`, its one
     * unsaved entry: the entry table gains exactly the row of `e`, under a fresh id.
     */
    method SaveAdmitted(name: string, e: JournalEntry)
      requires userService.db == db && db.Pending(name) && db.UnsavedOf(name) == {e}
      requires name in db.users && ValidateName(Some(name))
      modifies db, db.users[name].journal.journalEntries
      ensures Valid() && db.users == old(db.users) && db.Repr == old(db.Repr)
      ensures e.journalEntryId.Some? && e.journalEntryId.value !in old(db.entries)
      ensures db.entries == old(db.entries)[e.journalEntryId.value := e]
      ensures forall x | x in db.users[name].journal.journalEntries :: x.journal == old(x.journal) && x.Content() == old(x.Content())
      ensures db.EntryView() == old(db.EntryView())[e.journalEntryId.value := EntryRow(e.date, e.journal, e.Content())]
      ensures db.UserView() == old(db.UserView())
    {
      ghost var entries0 := db.entries;
      var saved := userService.SaveUser(Some(name));
      assert saved.Success?;
      db.IdsAreKeys();
      GainedOneRow(entries0, db.entries, e.journalEntryId.value, e);
      forall i | i in old(db.entries)
        ensures db.entries[i].journal == old(db.entries[i].journal) && db.entries[i].Content() == old(db.entries[i].Content())
      {
        assert old(db.entries[i] in db.Repr);
      }
      db.GainedView(e.journalEntryId.value);
    }

    /** `getEntry`: the stored entry with that id, which carries the id, or `EntryNotFound`. */
    method GetEntry(journalEntryId: int) returns (r: Result<JournalEntry, Error>)
      ensures journalEntryId !in db.entries ==> r == Failure(EntryNotFound(journalEntryId))
      ensures journalEntryId in db.entries ==> r == Success(db.entries[journalEntryId])
      ensures db.Valid() && r.Success? ==> r.value.journalEntryId == Some(journalEntryId) && r.value.journal != null
    {
      if journalEntryId !in db.entries {
        return Failure(EntryNotFound(journalEntryId));
      }
      if db.Valid() {
        db.StoredEntryFacts(journalEntryId);
      }
      return Success(db.entries[journalEntryId]);
    }

    /**
     * `updateEntry`: the found entry gets the DTO's five fields and is saved; its date, id
     * and journal stay, no other entry changes, and afterwards the DTO compares equal to it
     * whenever none of the DTO's fields is null.
     */
    method UpdateEntry(journalEntryId: int, updatedEntry: JournalEntryDTO) returns (r: Result<JournalEntry, Error>)
      requires Valid()
      modifies if journalEntryId in db.entries then {db.entries[journalEntryId]} else {}
      ensures Valid()
      ensures journalEntryId !in db.entries ==> r == Failure(EntryNotFound(journalEntryId))
      ensures journalEntryId in db.entries ==> r == Success(db.entries[journalEntryId])
      ensures r.Success? ==> r.value.Content() == updatedEntry && r.value.journalEntryId == Some(journalEntryId)
      ensures r.Success? ==> db.EntryView() == old(db.EntryView())[journalEntryId :=
                               old(db.EntryView()[journalEntryId]).(content := updatedEntry)]
      ensures r.Success? ==> CompareToEntry(Some(updatedEntry), r.value)
                             == if NoNullField(updatedEntry) then Success(true) else Failure(NullPointer)
      ensures db.UserView() == old(db.UserView())
    {
      if journalEntryId !in db.entries {
        return Failure(EntryNotFound(journalEntryId));
      }
      var entry := db.entries[journalEntryId];
      db.StoredEntryFacts(journalEntryId);
      ghost var row := db.EntryView()[journalEntryId];
      label Before:
      entry.SetWellBeing(updatedEntry.wellBeing);
      entry.SetGratefulForToday(updatedEntry.gratefulForToday);
      entry.SetGratefulForTodayDescription(updatedEntry.gratefulForTodayDescription);
      entry.SetGratefulForInLife(updatedEntry.gratefulForInLife);
      entry.SetGratefulForInLifeDescription(updatedEntry.gratefulForInLifeDescription);
      db.EditValid@Before(journalEntryId);
      db.EditView@Before(journalEntryId);
      CompareToOwnContent(updatedEntry, entry);
      return Success(entry);
    }

    /**
     * `deleteEntry`: the found entry leaves the entry table and its journal; no other
     * entry and no user changes.
     */
    method DeleteEntry(journalEntryId: int) returns (r: Outcome<Error>)
      requires Valid()
      modifies db, if journalEntryId in db.entries then {db.entries[journalEntryId].journal} else {}
      ensures Valid() && db.users == old(db.users)
      ensures r == if journalEntryId in old(db.entries) then Pass else Fail(EntryNotFound(journalEntryId))
      ensures r.Fail? ==> unchanged(db)
      ensures r.Pass? ==> db.entries == old(db.entries) - {journalEntryId}
      ensures r.Pass? ==> var j := old(db.entries[journalEntryId].journal);
                          j != null && j.journalEntries == old(j.journalEntries) - {old(db.entries[journalEntryId])}
      ensures db.UserView() == old(db.UserView())
    {
      if journalEntryId !in db.entries {
        return Fail(EntryNotFound(journalEntryId));
      }
      db.RemoveEntry(journalEntryId);
      return Pass;
    }
  }
}
