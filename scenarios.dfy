/**
 * Request sequences that the API tests exercise, stated over the services: what a later
 * request sees of an earlier one.
 */
module Scenarios {
  import opened Wrappers
  import opened Errors
  import opened Names
  import opened Journals
  import opened Users
  import opened Listing
  import opened Store
  import opened Services

  /**
   * A proof step for `SingleRow` only; it models nothing of the service.
   * The first two rows of a listing, where there are two, are rows of it. `SingleRow` states
   * this through a lemma because its own context rules out a second row, and a check of
   * `s[1]` made there would be proved from contradictory facts.
   */
  lemma LeadingRows(s: seq<IdDatePair>)
    ensures |s| >= 2 ==> s[0] in s && s[1] in s
  { }

  /** A listing without repeated ids whose rows are all `x`, and which holds `x`, is `[x]`. */
  lemma SingleRow(s: seq<IdDatePair>, x: IdDatePair)
    requires IdsDistinct(s) && forall p :: p in s <==> p == x
    ensures s == [x]
  {
    assert x in s && s[0] in s;
    LeadingRows(s);
  }

  /** Creating a user and then asking for it returns the created user, with a generated id. */
  method CreateThenGet(userService: UserService, newUserDTO: NewUserDTO) returns (created: Result<User, Error>, got: Result<User, Error>)
    requires userService.db.Valid()
    modifies userService.db
    ensures created.Success? ==> got == created
    ensures created.Success? ==> got.value.ToReturnUserDTO()
                                 == ReturnUserDTO(Some(old(userService.db.nextId)), newUserDTO.userName,
                                                  newUserDTO.firstName, newUserDTO.lastName)
  {
    created := userService.CreateUser(newUserDTO);
    got := userService.GetUserByUserName(newUserDTO.userName);
  }

  /** After a user is deleted, asking for it gives `UserNotFound`. */
  method DeleteThenGet(userService: UserService, userName: Option<string>) returns (deleted: Outcome<Error>, got: Result<User, Error>)
    requires userService.db.Valid()
    modifies userService.db
    ensures deleted.Pass? ==> got == Failure(UserNotFound(userName))
    ensures deleted.Fail? ==> got.Failure?
  {
    deleted := userService.DeleteUserByUserName(userName);
    got := userService.GetUserByUserName(userName);
  }

  /**
   * Two new entries for one user on one day, starting from an empty journal: the first is
   * admitted, the second is refused with `EntryAlreadyExists`, and the listing afterwards
   * holds the first entry's row and nothing else.
   */
  method AddTwiceOnOneDay(journalService: JournalService, userName: Option<string>, today: Date)
      returns (first: Result<JournalEntry, Error>, second: Result<JournalEntry, Error>, listing: Result<seq<IdDatePair>, Error>)
    requires journalService.Valid()
    requires ValidateName(userName) && userName.value in journalService.db.users
    requires journalService.db.users[userName.value].journal.journalEntries == {}
    modifies journalService.db, JournalNamed(journalService.db, userName), EntriesNamed(journalService.db, userName)
    ensures first.Success? && first.value.journalEntryId.Some?
    ensures second == Failure(EntryAlreadyExists(today))
    ensures listing == Success([IdDatePair(first.value.journalEntryId.value, today)])
  {
    var entry := new JournalEntry(today);
    first := journalService.AddEntry(userName, entry, today);
    second, listing := AddAgainThenList(journalService, userName, entry, today);
  }

  /**
   * A user whose journal holds exactly one entry, today's, adds another one for today: it is
   * refused with `EntryAlreadyExists`, and the listing still holds that one entry's row alone.
   */
  method AddAgainThenList(journalService: JournalService, userName: Option<string>, entry: JournalEntry, today: Date)
      returns (second: Result<JournalEntry, Error>, listing: Result<seq<IdDatePair>, Error>)
    requires journalService.Valid()
    requires ValidateName(userName) && userName.value in journalService.db.users
    requires journalService.db.users[userName.value].journal.journalEntries == {entry}
    requires entry.date == today && entry.journalEntryId.Some?
    requires entry.journalEntryId.value in journalService.db.entries
    requires journalService.db.entries[entry.journalEntryId.value] == entry
    modifies journalService.db, JournalNamed(journalService.db, userName), EntriesNamed(journalService.db, userName)
    ensures unchanged(entry)
    ensures second == Failure(EntryAlreadyExists(today))
    ensures listing == Success([IdDatePair(entry.journalEntryId.value, today)])
  {
    var db := journalService.db;
    ghost var journal := db.users[userName.value].journal;
    assert journal.HasEntryForToday(today) by {
      assert entry in journal.journalEntries;
    }
    var again := new JournalEntry(today);
    second := journalService.AddEntry(userName, again, today);
    listing := journalService.GetEntries(userName);
    ListsOnlyEntry(db, journal, entry, listing.value);
  }

  /** The first entry admitted to an empty journal is then the one row of its listing. */
  method AddThenList(journalService: JournalService, userName: Option<string>, today: Date)
      returns (added: Result<JournalEntry, Error>, listing: Result<seq<IdDatePair>, Error>)
    requires journalService.Valid()
    requires userName.Some? && userName.value in journalService.db.users
    requires journalService.db.users[userName.value].journal.journalEntries == {}
    modifies journalService.db, JournalNamed(journalService.db, userName), EntriesNamed(journalService.db, userName)
    ensures added.Success? ==> added.value.journalEntryId.Some?
    ensures added.Success? ==> listing == Success([IdDatePair(added.value.journalEntryId.value, today)])
  {
    var db := journalService.db;
    var entry := new JournalEntry(today);
    added := journalService.AddEntry(userName, entry, today);
    if added.Failure? {
      listing := journalService.GetEntries(userName);
      return;
    }
    ghost var k := entry.journalEntryId.value;
    ghost var journal := db.users[userName.value].journal;
    assert journal.journalEntries == {entry} && db.entries[k] == entry;
    listing := journalService.GetEntries(userName);
    ListsOnlyEntry(db, journal, entry, listing.value);
  }

  /** The listing of a journal whose one entry is stored under its id holds that entry's row alone. */
  lemma ListsOnlyEntry(db: Database, journal: Journal, entry: JournalEntry, listing: seq<IdDatePair>)
    requires db.Valid() && journal.journalEntries == {entry} && entry.journalEntryId.Some?
    requires IdsDistinct(listing)
    requires forall p :: p in listing <==>
               p.id in db.entries && db.entries[p.id] in journal.journalEntries && p.date == db.entries[p.id].date
    requires entry.journalEntryId.value in db.entries && db.entries[entry.journalEntryId.value] == entry
    ensures listing == [IdDatePair(entry.journalEntryId.value, entry.date)]
  {
    var row := IdDatePair(entry.journalEntryId.value, entry.date);
    db.IdsAreKeys();
    forall p
      ensures p in listing <==> p == row
    {
      if p in listing {
        assert db.entries[p.id] == entry;
      }
    }
    SingleRow(listing, row);
  }

  /** The rows of a listing without repeated ids are as many as its length. */
  lemma {:induction false} DistinctRowCount(s: seq<IdDatePair>)
    requires IdsDistinct(s)
    ensures |set p | p in s| == |s|
  {
    if s != [] {
      var rest := s[1..];
      assert IdsDistinct(rest) by {
        forall i, j | 0 <= i < j < |rest|
          ensures rest[i].id != rest[j].id
        {
          assert rest[i] == s[i + 1] && rest[j] == s[j + 1];
        }
      }
      DistinctRowCount(rest);
      assert s[0] !in rest by {
        forall i | 0 <= i < |rest|
          ensures rest[i] != s[0]
        {
          assert rest[i] == s[i + 1];
        }
      }
      assert (set p | p in s) == {s[0]} + (set p | p in rest) by {
        assert s == [s[0]] + rest;
      }
    }
  }

  /** A listing that lost one of its rows, and only that one, is one row shorter. */
  lemma LostOneRow(before: seq<IdDatePair>, after: seq<IdDatePair>, row: IdDatePair)
    requires IdsDistinct(before) && IdsDistinct(after) && row in before
    requires forall p :: p in after <==> p in before && p != row
    ensures |after| == |before| - 1
  {
    DistinctRowCount(before);
    DistinctRowCount(after);
    assert (set p | p in after) == (set p | p in before) - {row};
  }

  /**
   * Deleting an entry of a user's journal removes its row from the user's listing and no
   * other row, so the listing is one row shorter.
   */
  method DeleteEntryThenList(journalService: JournalService, userName: Option<string>, journalEntryId: int)
      returns (before: Result<seq<IdDatePair>, Error>, deleted: Outcome<Error>, after: Result<seq<IdDatePair>, Error>)
    requires journalService.Valid()
    requires ValidateName(userName) && userName.value in journalService.db.users
    requires journalEntryId in journalService.db.entries
    requires journalService.db.entries[journalEntryId] in journalService.db.users[userName.value].journal.journalEntries
    modifies journalService.db, journalService.db.entries[journalEntryId].journal
    ensures before.Success? && deleted == Pass && after.Success?
    ensures IdDatePair(journalEntryId, old(journalService.db.entries[journalEntryId].date)) in before.value
    ensures forall p :: p in after.value <==> p in before.value && p.id != journalEntryId
    ensures |after.value| == |before.value| - 1
  {
    var db := journalService.db;
    var entry := db.entries[journalEntryId];
    db.StoredEntryFacts(journalEntryId);
    before := journalService.GetEntries(userName);
    deleted := journalService.DeleteEntry(journalEntryId);
    after := journalService.GetEntries(userName);
    var row := IdDatePair(journalEntryId, entry.date);
    forall p
      ensures p in after.value <==> p in before.value && p != row
    {
    }
    LostOneRow(before.value, after.value, row);
  }

  /**
   * After an entry is updated, asking for it returns the entry with the new content, which
   * `compareToEntry` finds equal to a DTO without null fields.
   */
  method UpdateEntryThenGet(journalService: JournalService, journalEntryId: int, updatedEntry: JournalEntryDTO)
      returns (updated: Result<JournalEntry, Error>, got: Result<JournalEntry, Error>)
    requires journalService.Valid()
    modifies if journalEntryId in journalService.db.entries then {journalService.db.entries[journalEntryId]} else {}
    ensures updated.Success? <==> journalEntryId in journalService.db.entries
    ensures updated.Success? ==> got == updated && got.value.Content() == updatedEntry
    ensures updated.Success? && NoNullField(updatedEntry) ==> CompareToEntry(Some(updatedEntry), got.value) == Success(true)
    ensures updated.Failure? ==> got == Failure(EntryNotFound(journalEntryId))
  {
    updated := journalService.UpdateEntry(journalEntryId, updatedEntry);
    got := journalService.GetEntry(journalEntryId);
  }

  /** After a user is deleted, asking for any entry of its journal gives `EntryNotFound`. */
  method DeleteUserThenGetEntry(journalService: JournalService, userName: Option<string>, journalEntryId: int)
      returns (deleted: Outcome<Error>, got: Result<JournalEntry, Error>)
    requires journalService.Valid()
    requires ValidateName(userName) && userName.value in journalService.db.users
    requires journalEntryId in journalService.db.entries
    requires journalService.db.entries[journalEntryId] in journalService.db.users[userName.value].journal.journalEntries
    modifies journalService.db
    ensures deleted == Pass
    ensures got == Failure(EntryNotFound(journalEntryId))
  {
    journalService.db.StoredEntryFacts(journalEntryId);
    deleted := journalService.userService.DeleteUserByUserName(userName);
    got := journalService.GetEntry(journalEntryId);
  }

  /** After an entry is deleted, asking for it gives `EntryNotFound`. */
  method DeleteEntryThenGet(journalService: JournalService, journalEntryId: int)
      returns (deleted: Outcome<Error>, got: Result<JournalEntry, Error>)
    requires journalService.Valid()
    modifies journalService.db
    modifies if journalEntryId in journalService.db.entries then {journalService.db.entries[journalEntryId].journal} else {}
    ensures got == Failure(EntryNotFound(journalEntryId))
    ensures deleted == if journalEntryId in old(journalService.db.entries) then Pass else Fail(EntryNotFound(journalEntryId))
  {
    deleted := journalService.DeleteEntry(journalEntryId);
    got := journalService.GetEntry(journalEntryId);
  }
}
