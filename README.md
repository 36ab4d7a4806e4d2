# GratitudeJournal in Dafny

This is a model of the business core of GratitudeJournal, a Spring Boot REST service. Each user has one journal. A journal holds at most one gratitude entry per calendar day. An entry records a well-being level on a seven-step scale and four free-text fields.

The model covers the entities, the two services, the repositories they use, and the proved properties.

Entities:
- `User` validates its names.
- `Journal` admits one entry per day.
- `JournalEntry` has a set-once journal reference and five mutable content fields.

Services:
- `UserService` gets, creates, updates, deletes and saves users.
- `JournalService` lists, adds, reads, updates and deletes entries.

Repositories:
- `UserRepository.findByUserName`, `JournalEntryRepository.getEntriesByJournalId` and their JPA cascades are one `Database` class.
- The users are a map keyed by the unique user name.
- The entries are a map keyed by id.
- One id generator serves all of them.

The repository exists in three iterations:
- `com.example.gratidude_journal`, the oldest;
- `com.example.gratitude_journal`;
- `io.github.neiroukh.gratitudejournal`, the newest.

The model follows `com.example.gratitude_journal`. The other two iterations behave the same apart from the following:
- **Oldest iteration, first `User`.** The first `User` (`src/main/java/com/example/gratidude_journal/User.java`) has no journal. Its no-argument constructor does not validate, and it hashes all four fields. It is modelled apart, as `EarlyUsers.User`.
- **Oldest iteration, later packages.** Its later `user` and `journal` packages behave the same as the middle iteration, apart from the differences listed below. Where they agree, the members modelled here model them too:
  - `validateName` is at lines 33-44 of `user/User.java`;
  - the services are at `user/UserService.java:40-86`;
  - `addEntry` is at `journal/Journal.java:32-46`;
  - `compareToEntry` is at `journal/entry/JournalEntryDTO.java:9-21`.

  The differences are these (paths under `src/main/java/com/example/gratidude_journal/`):
  - `journal/Journal.java` has no `getJournalId()`. Yet `journal/JournalService.java:40` calls `user.getJournal().getJournalId()`, so the oldest `getEntries` does not compile as written. `Services.JournalService.GetEntries` models the body it evidently means, the one the middle iteration has.
  - `journal/Journal.java:44`: `addEntry` prints `newEntry.toString()` before adding the entry. Output is not modelled.
  - `journal/Journal.java:48`: `hasEntryForToday` is public, where the middle iteration makes it private. Visibility does not change its result.
  - Two `JournalEntry` classes are in play, and only one of them is among the files.
    - `journal/JournalService.java:3` imports `com.example.gratidude_journal.journal.entry.JournalEntry`.
    - `journal/entry/JournalEntryDTO.java:15-20` calls `getGratefulForToday()` and the other getters spelt with one "l".
    - No such class is among the files, so `journal.entry.JournalEntry` is not part of this model. The model takes it to be the middle iteration's entry.
    - The file that is present, `journal/JournalEntry.java`, declares `com.example.gratidude_journal.journal.JournalEntry`, which `journal/Journal.java` uses from its own package. It differs from the middle iteration's entry in visibility and spelling only:
      - `WellBeing` is private (line 26);
      - the fields are package-private and spelt `gratefull…` (lines 40-45), as are the getters (lines 73-97);
      - `toString` prints `gratefullForTodayDescription` twice (lines 121-124), and `toString` is not modelled.
- **Oldest iteration, `JournalService`.** It has only `addEntry`, `getEntries` and `getEntry` (`journal/JournalService.java:30-50`). Its `addEntry` returns nothing; this is `Services.JournalService.AddEntry` with the result ignored.
- **Newest iteration.** Its user services (`src/main/java/io/github/neiroukh/gratitudejournal/user/UserService.java:67-153`) and journal services (`.../journal/JournalService.java:62-146`) behave as the middle iteration's do (its `getEntry` uses `orElseThrow` where the middle one tests `isPresent`, to the same effect). Two signatures differ. `updateUser` takes a `SimpleUserDTO`, which has the same two fields as `UpdateUserDTO` (`Users.SimpleUserDTO` is an alias). `createUser(userName, simpleUserDTO)` takes the user name apart from the other names and is modelled as `Services.UserService.CreateNamedUser`.

**Assumption about the newest iteration.** Its `User`, `Journal`, `JournalEntry` and `JournalEntryDTO` classes are not part of this model. Its services are bound to the middle iteration's entities, on the assumption that those entities are unchanged.

How the model represents the Java program:
- Java `null` is `None`; a nullable reference is `T?`.
- A thrown exception is a `Failure`/`Fail` value of the `Errors.Error` datatype; a returned value is `Success`/`Pass`.
- `LocalDate.now()` is a parameter `today`, and a date is the integer count of days.
- `hashCode` is computed with Java's 32-bit wrap-around written out.
- State that the source changes in place stays in classes with `modifies` frames:
  - entity fields;
  - the journal's entry set;
  - the repository tables.

The `Store.Database` invariant (`Valid`) says the following:
- every stored user is stored under its own valid name;
- users share neither journals nor ids;
- every journal holds at most one entry per date;
- every entry of a stored journal refers back to the journal and is stored under its own id.

Every state-changing service method is proved to keep this invariant. Each one also states its whole effect on what the API can observe:
- `UserView`: id and names per user name;
- `EntryView`: date, journal and content per entry id.

That effect is stated in one of two forms:
- as an equation on a view. `createUser` and `updateUser` state one on `UserView`, and `addEntry` and `updateEntry` on `EntryView`; the journal methods and `saveUser` state that `UserView` is unchanged;
- as an equation on the `users` and `entries` tables the views are read from. `createUser`, `deleteUserByUserName`, `saveUser` and `deleteEntry` take this form. Their `modifies` frames leave every stored object untouched, apart from the entries whose content `saveUser` is proved to keep.

`Scenarios` replays the request sequences of the API tests over the services and proves what a later request sees of an earlier one.

## Model

| member | source | states |
|---|---|---|
| `Names.ValidateName` | src/main/java/com/example/gratitude_journal/user/User.java:81-92 | A name is valid exactly when it is non-null, has at least two characters and has no space at any position. |
| `Names.FirstInvalidName` | src/main/java/com/example/gratitude_journal/user/UserService.java:53-71 | The name reported as invalid is invalid, and it is one of the three names checked. |
| `Names.FirstInvalidNameIsNoneIffAllValid` | src/main/java/com/example/gratitude_journal/user/User.java:107-109 | Validating user name, first name and last name one after the other passes exactly when `validateAllNames` holds. Otherwise the first invalid name in that order is the one reported: the user name, else the first name, else the last name. |
| `Names.ValidateAllNames` | src/main/java/com/example/gratitude_journal/user/User.java:107-109 | True exactly when each of user name, first name and last name is a valid name; then none of the three is null. |
| `Names.RejectedNames` | src/test/java/com/example/gratitude_journal/user/UserApiTest.java:182-187 | null, "", "t", "I" and a name containing a space are all invalid. |
| `Names.AcceptedNames` | src/main/java/com/example/gratitude_journal/user/User.java:85-91 | Two characters without a space are already a valid name. |
| `Journals.Ordinal` | src/main/java/com/example/gratitude_journal/journal/entry/JournalEntry.java:31-39 | `ordinal()` is the level's position in the declaration order. |
| `Journals.WellBeingHasSevenOrderedLevels` | src/main/java/com/example/gratitude_journal/journal/entry/JournalEntry.java:31-39 | The scale has exactly seven distinct levels, AWFUL first (0) and FANTASTIC last (6), and `ordinal()` enumerates them in order. |
| `Journals.CompareToEntry` | src/main/java/com/example/gratitude_journal/journal/entry/JournalEntryDTO.java:38-50 | Two nulls compare equal and one null compares unequal. A DTO without null fields is equal to an entry exactly when the five content fields agree; date, id and journal take no part. A failure is always the NullPointerException of a null DTO field. A null `wellBeing` always throws. |
| `Journals.CompareToOwnContent` | src/main/java/com/example/gratitude_journal/journal/entry/JournalEntryDTO.java:43-49 | A DTO compared with an entry holding that DTO's content gives true when the DTO has no null field, and NullPointerException otherwise. |
| `Journals.JournalEntry.constructor` | src/main/java/com/example/gratitude_journal/journal/entry/JournalEntry.java:52-54 | A new entry is dated today, has no journal and no id, and all of its content is null. |
| `Journals.JournalEntry.InJournal` | src/main/java/com/example/gratitude_journal/journal/entry/JournalEntry.java:56-59 | As the constructor, but bound to the given journal at once. |
| `Journals.JournalEntry.SetJournal` | src/main/java/com/example/gratitude_journal/journal/entry/JournalEntry.java:61-64 | The journal reference is set only while it is null, so once set it never changes. |
| `Journals.JournalEntry.SetWellBeing` | src/main/java/com/example/gratitude_journal/journal/entry/JournalEntry.java:74-76 | The content changes in the well-being field alone. |
| `Journals.JournalEntry.SetGratefulForToday` | src/main/java/com/example/gratitude_journal/journal/entry/JournalEntry.java:82-84 | The content changes in that one field alone. |
| `Journals.JournalEntry.SetGratefulForTodayDescription` | src/main/java/com/example/gratitude_journal/journal/entry/JournalEntry.java:90-92 | The content changes in that one field alone. |
| `Journals.JournalEntry.SetGratefulForInLife` | src/main/java/com/example/gratitude_journal/journal/entry/JournalEntry.java:98-100 | The content changes in that one field alone. |
| `Journals.JournalEntry.SetGratefulForInLifeDescription` | src/main/java/com/example/gratitude_journal/journal/entry/JournalEntry.java:106-108 | The content changes in that one field alone. |
| `Journals.JournalEntry.Equals` | src/main/java/com/example/gratitude_journal/journal/entry/JournalEntry.java:110-118 | Two entries are equal exactly when the argument is non-null and the ids agree; two unsaved (null-id) entries are equal. |
| `Journals.JournalEntry.HashCode` | src/main/java/com/example/gratitude_journal/journal/entry/JournalEntry.java:120-123 | The hash is a 32-bit int congruent to `31 + Long.hashCode(id)` modulo 2^32 (the wrap-around of `Objects.hash` and of Java `int` arithmetic), and 31 for an unsaved entry. |
| `Journals.EntryEqualsImpliesSameHash` | src/main/java/com/example/gratitude_journal/journal/entry/JournalEntry.java:120-123 | Equal entries have equal hash codes. |
| `Journals.Journal.constructor` | src/main/java/com/example/gratitude_journal/journal/Journal.java:42-49 | A new journal has no id and no entries. |
| `Journals.Journal.HasEntryForToday` | src/main/java/com/example/gratitude_journal/journal/Journal.java:81-86 | True exactly when today is among the dates of the journal's entries. |
| `Journals.Journal.AddEntry` | src/main/java/com/example/gratitude_journal/journal/Journal.java:61-74 | Rejects, in this order, a null entry, an entry not dated today and any entry once one for today exists; a rejection changes neither the journal nor the entry. Otherwise the entry is bound to the journal unless it already had one, and the set gains it unless an equal entry is present. The entry's id and content never change, and one entry per date is preserved. |
| `Journals.Journal.Equals` | src/main/java/com/example/gratitude_journal/journal/Journal.java:110-117 | Two journals are equal exactly when the argument is non-null and the ids agree. |
| `Journals.Journal.HashCode` | src/main/java/com/example/gratitude_journal/journal/Journal.java:124-127 | The hash is a 32-bit int congruent to `31 + Long.hashCode(id)` modulo 2^32, and 31 for an unsaved journal. |
| `Journals.JournalEqualsImpliesSameHash` | src/main/java/com/example/gratitude_journal/journal/Journal.java:124-127 | Equal journals have equal hash codes. |
| `Users.User.Empty` | src/main/java/com/example/gratitude_journal/user/User.java:111-113 | The no-argument constructor leaves every name and the id null, and still creates a fresh, empty journal. |
| `Users.User.constructor` | src/main/java/com/example/gratitude_journal/user/User.java:124-130 | With three valid names, the user holds exactly those names, no id and a fresh, empty journal. |
| `Users.User.Create` | src/main/java/com/example/gratitude_journal/user/User.java:159-212 | Construction fails exactly when some name is invalid, and it reports the first invalid name in the order user name, first name, last name. On success the user is valid, holds the three names, has no id and has a fresh, empty journal. |
| `Users.User.SetFirstName` | src/main/java/com/example/gratitude_journal/user/User.java:183-188 | An invalid name throws NameInvalid and changes nothing. A valid one replaces the first name. The user stays valid. |
| `Users.User.SetLastName` | src/main/java/com/example/gratitude_journal/user/User.java:207-212 | An invalid name throws NameInvalid and changes nothing. A valid one replaces the last name. The user stays valid. |
| `Users.User.ToReturnUserDTO` | src/main/java/com/example/gratitude_journal/user/User.java:230-232 | The DTO carries the user's id and three names, and nothing of the journal. |
| `Users.User.Equals` | src/main/java/com/example/gratitude_journal/user/User.java:234-243 | Two users are equal exactly when the argument is non-null and id, user name, first name and last name all agree. |
| `Users.User.HashCode` | src/main/java/com/example/gratitude_journal/user/User.java:245-248 | The hash is a 32-bit int congruent modulo 2^32 to `961 + 31 * Long.hashCode(userId) + userName.hashCode()`, a null field counting 0; the first and last names take no part. |
| `Users.UserEqualsImpliesSameHash` | src/main/java/com/example/gratitude_journal/user/User.java:245-248 | Equal users have equal hash codes, although the hash covers only id and user name. |
| `Users.HashIgnoresMutableNames` | src/main/java/com/example/gratitude_journal/user/User.java:245-248 | Users with the same id and user name hash alike whatever their first and last names. |
| `EarlyUsers.User.Empty` | src/main/java/com/example/gratidude_journal/User.java:35-36 | The unvalidating no-argument constructor leaves every field null, so the user breaks the name rule. |
| `EarlyUsers.User.constructor` | src/main/java/com/example/gratidude_journal/User.java:38-42 | With three valid names, the user holds exactly those names and no id. |
| `EarlyUsers.User.Create` | src/main/java/com/example/gratidude_journal/User.java:52-83 | Construction fails exactly when some name is invalid, and it reports the first invalid one. On success the user is valid and holds the three names. |
| `EarlyUsers.User.SetFirstName` | src/main/java/com/example/gratidude_journal/User.java:67-72 | An invalid name throws and changes nothing. A valid one replaces the first name. |
| `EarlyUsers.User.SetLastName` | src/main/java/com/example/gratidude_journal/User.java:78-83 | An invalid name throws and changes nothing. A valid one replaces the last name. |
| `EarlyUsers.User.Equals` | src/main/java/com/example/gratidude_journal/User.java:85-94 | Two users are equal exactly when the argument is non-null and all four fields agree. |
| `EarlyUsers.User.HashCode` | src/main/java/com/example/gratidude_journal/User.java:96-99 | The hash is a 32-bit int congruent modulo 2^32 to `31^4 + 31^3 * h(userId) + 31^2 * h(userName) + 31 * h(firstName) + h(lastName)`, where `h` is `Long.hashCode` or `String.hashCode` and a null counts 0. |
| `EarlyUsers.EarlyUserEqualsImpliesSameHash` | src/main/java/com/example/gratidude_journal/User.java:96-99 | Equal users have equal hash codes, the hash covering the same four fields. |
| `Listing.InsertByDate` | src/main/java/io/github/neiroukh/gratitudejournal/journal/entry/JournalEntryRepository.java:29 | Inserting a row gives a permutation of the old rows plus the new one. |
| `Listing.InsertByDateMembers` | src/main/java/io/github/neiroukh/gratitudejournal/journal/entry/JournalEntryRepository.java:29 | After an insertion the listing holds the old rows and the new row, and nothing else. |
| `Listing.InsertByDateDescending` | src/main/java/io/github/neiroukh/gratitudejournal/journal/entry/JournalEntryRepository.java:29 | Inserting keeps a listing ordered by date, newest first (`ORDER BY entry.date DESC`). |
| `Listing.InsertByDateIdsDistinct` | src/main/java/io/github/neiroukh/gratitudejournal/journal/entry/JournalEntryRepository.java:29 | Inserting a row for an entry not yet listed keeps one row per entry. |
| `Store.Database.GetEntriesByJournalId` | src/main/java/io/github/neiroukh/gratitudejournal/journal/entry/JournalEntryRepository.java:29-30 | The result has one `(id, date)` row for each stored entry whose journal has the given id, and no other row. The rows are newest first, with no id twice. |
| `Store.Database.OwnJournalQuery` | src/main/java/com/example/gratitude_journal/journal/entry/JournalEntry.java:27-29 | Under the invariant, a stored user's journal id selects exactly the stored entries of that journal, and every entry of that journal is stored under its id. |
| `Store.Database.StoredUserFacts` | src/main/java/com/example/gratitude_journal/user/User.java:42-67 | Under the invariant, a stored user is found under its own unique user name, has valid names and an id, and owns an identified journal. That journal has one entry per date, all saved and all referring back to it. |
| `Store.Database.StoredEntryFacts` | src/main/java/com/example/gratitude_journal/journal/entry/JournalEntry.java:23-29 | Under the invariant, a stored entry carries its own key as id and belongs to an identified journal that contains it. |
| `Store.Database.Persist` | src/main/java/com/example/gratitude_journal/user/User.java:42-67 | Saving a new user stores it under its user name and gives the user and, by cascade, its journal the next two generated ids. No other user or entry changes and the invariant holds. |
| `Store.Database.Merge` | src/main/java/com/example/gratitude_journal/journal/Journal.java:42-43 | Saving a stored user cascades to its journal. Every entry not saved yet gets a fresh id and is stored; every row stored before stays; no content or journal reference changes; the entry table is unchanged when nothing was new. |
| `Store.Database.SaveClean` | src/main/java/com/example/gratitude_journal/user/UserService.java:130 | Saving a user whose journal has nothing new changes no table and nothing the API can observe. |
| `Store.Database.RemoveEntry` | src/main/java/com/example/gratitude_journal/journal/JournalService.java:145 | Deleting a stored entry removes its row and no longer lists it in its journal's set: `entryRepository.delete(entry)` (also at line 142 of the newest iteration's `journal/JournalService.java`) deletes the row, and the `mappedBy` collection stops listing it. No user or other entry changes, and the invariant holds. |
| `Store.Database.DeleteUser` | src/main/java/com/example/gratitude_journal/user/User.java:65-67 | Deleting a user removes the user and, by cascade, exactly the entries of its journal. Every other row stays as it was. |
| `Services.UserService.constructor` | src/main/java/com/example/gratitude_journal/user/UserService.java:28-30 | The service works on the database (the repository) it is given. |
| `Services.UserService.GetUserByUserName` | src/main/java/com/example/gratitude_journal/user/UserService.java:82-89 | An invalid name is rejected before any lookup, and an unknown one is not found. Otherwise the result is the stored user, which carries that very name and valid names. |
| `Services.UserService.DeleteUserByUserName` | src/main/java/com/example/gratitude_journal/user/UserService.java:100-109 | The cases are NameInvalid, UserNotFound (both changing nothing) and deletion. Deletion removes exactly the user and its journal's entries, and the invariant holds. |
| `Services.UserService.UpdateUser` | src/main/java/com/example/gratitude_journal/user/UserService.java:123-133 | The user name, first name and last name are validated in that order and the first invalid one is reported; then a missing user is not found. Otherwise exactly that user's first and last names change in the observable view, with no entry changing. |
| `Services.UserService.ApplyUpdate` | src/main/java/com/example/gratitude_journal/user/UserService.java:127-131 | Setting the two validated names on the found user and saving it changes that user's first and last names only, and keeps the invariant. |
| `Services.UserService.CreateUser` | src/main/java/com/example/gratitude_journal/user/UserService.java:147-155 | The names are validated in order, a taken user name is rejected, and each failure changes nothing. Otherwise a fresh user with an empty journal is stored, with the next generated id. The view gains exactly that user and the entries are unchanged. |
| `Services.UserService.CreateNamedUser` | src/main/java/io/github/neiroukh/gratitudejournal/user/UserService.java:133-141 | The same checks and effects as `createUser`, with the user name passed apart from the `SimpleUserDTO`. |
| `Services.UserService.SaveUser` | src/main/java/com/example/gratitude_journal/user/UserService.java:163-167 | The name check and the lookup come first, and a failure changes nothing. Otherwise the stored user is returned, and each not-yet-saved entry of its journal is stored under a fresh id. Nothing stored before changes and no user changes. |
| `Services.JournalService.constructor` | src/main/java/com/example/gratitude_journal/journal/JournalService.java:43-46 | The service works on the given database and user service, which share one database, as the two injected repositories share one persistence context. |
| `Services.JournalService.GetEntries` | src/main/java/com/example/gratitude_journal/journal/JournalService.java:62-66 | The user lookup's errors come first. The listing then holds one `(id, date)` row for every entry of that user's journal and nothing else, newest first, with no entry twice. |
| `Services.JournalService.AddEntry` | src/main/java/com/example/gratitude_journal/journal/JournalService.java:76-83 | The errors come in order: NameInvalid, UserNotFound, null entry, not from today, EntryAlreadyExists. Each leaves the database, the journal, the journal's entries, the new entry and the entry view unchanged. On success the same entry is returned: it is bound to the user's journal, added to its set and stored under a fresh id, with its content intact. The journal's other entries keep their content and journal, the entry view gains exactly the new row (today, the journal, the content), and no user changes. |
| `Services.JournalService.AdmitAndSave` | src/main/java/com/example/gratitude_journal/journal/JournalService.java:79-82 | Once the user is found, the journal admits or rejects the entry as `addEntry` specifies. An admitted entry is saved under a fresh id, so the entry table and the entry view gain exactly its row, and the journal's other entries keep their content. |
| `Services.JournalService.Admit` | src/main/java/com/example/gratitude_journal/journal/JournalService.java:79 | Admission by a stored user's journal. A refusal changes nothing. On success the journal's set gains exactly the entry, which becomes the one entry left to save; neither the user view nor the entry view changes. |
| `Services.JournalService.SaveAdmitted` | src/main/java/com/example/gratitude_journal/journal/JournalService.java:80 | Saving the user after an admission stores exactly the admitted entry, under a fresh id, so the entry view gains only its row; the journal's entries keep their content, and the invariant is restored. |
| `Services.JournalService.GetEntry` | src/main/java/com/example/gratitude_journal/journal/JournalService.java:97-104 | The result is the stored entry with that id, which carries the id and belongs to a journal, or EntryNotFound. |
| `Services.JournalService.UpdateEntry` | src/main/java/com/example/gratitude_journal/journal/JournalService.java:121-132 | A missing id gives EntryNotFound. Otherwise the found entry takes the DTO's five fields while its date, id and journal stay; no other entry or user changes. Afterwards `compareToEntry` finds the DTO equal to it whenever no DTO field is null. |
| `Services.JournalService.DeleteEntry` | src/main/java/com/example/gratitude_journal/journal/JournalService.java:143-149 | A missing id gives EntryNotFound and changes nothing. Otherwise exactly that row leaves the entry table and the entry leaves its journal's set, with no user changed. |
| `Scenarios.CreateThenGet` | src/test/java/com/example/gratitude_journal/user/UserApiTest.java:257-264 | A created user is what a later lookup of its user name returns, with the given names and a generated id. |
| `Scenarios.DeleteThenGet` | src/test/java/com/example/gratitude_journal/user/UserApiTest.java:191-197 | After a successful deletion, a lookup of the name gives UserNotFound. |
| `Scenarios.AddTwiceOnOneDay` | src/test/java/com/example/gratitude_journal/journal/JournalApiTest.java:112-139 | Starting from an empty journal, a first entry for today is admitted with an id, a second one for the same user on the same day gives EntryAlreadyExists, and the listing afterwards is still exactly the first entry's row. |
| `Scenarios.AddAgainThenList` | src/test/java/com/example/gratitude_journal/journal/JournalApiTest.java:133-138 | When a user's journal holds exactly today's entry, another entry for today gives EntryAlreadyExists, that entry stays as it was, and the listing is still that entry's row alone. |
| `Scenarios.AddThenList` | src/test/java/com/example/gratitude_journal/journal/JournalApiTest.java:112-127 | After the first entry of an empty journal is added, the listing is exactly one row: that entry's id and today. |
| `Scenarios.DeleteEntryThenList` | src/test/java/com/example/gratitude_journal/journal/JournalApiTest.java:183-202 | Deleting an entry removes its row, and only that row, from its user's listing, which becomes one row shorter. |
| `Scenarios.UpdateEntryThenGet` | src/test/java/com/example/gratitude_journal/journal/JournalApiTest.java:165-172 | After an update succeeds, the entry read back has the DTO's content, and `compareToEntry` finds it equal to a DTO without null fields. An update of a missing id fails, and so does reading that id. |
| `Scenarios.DeleteUserThenGetEntry` | src/main/java/com/example/gratitude_journal/user/User.java:65-67 | After a user is deleted, every former entry of its journal gives EntryNotFound. |
| `Scenarios.DeleteEntryThenGet` | src/test/java/com/example/gratitude_journal/journal/JournalApiTest.java:200-204 | After an entry is deleted, reading it gives EntryNotFound. |

## Left out

- Controllers, model assemblers, exception handlers and the HTTP status of each error are left out. They are web plumbing around the core; the two conflicting codes for a conflict (403 and 409) are therefore not modelled either.
- `LoadDatabase`, the application class, getters, `toString` and the `System.out.println` calls are left out: they compute nothing the core relies on.
- The clock is a parameter. `LocalDate.now()` becomes the parameter `today`, and the two separate reads in `addEntry` and `hasEntryForToday` are taken to return the same day; a request that straddles midnight is not modelled.
- Concurrency and transactions are left out. Two simultaneous adds for one user on one day could both pass the one-per-day check in the source. The model runs one request at a time.
- JPA `merge` of a detached object is not modelled. `Store.Database.Merge` assigns the generated id to the same entry object; JPA may copy it. `Services.JournalService.AddEntry` therefore promises its returned object, the caller's `newEntry` (src/main/java/com/example/gratitude_journal/journal/JournalService.java:82), a fresh id. Under a copying merge that object would keep a null id, and only the stored copy would carry the generated id.
- Lazy loading and the persistence context are not modelled. Reading a stored user is a map lookup.
- Services look up users in the map directly. `Services.JournalService.AddEntry` checks the name and looks the user up in the map instead of calling `getUserByUserName`, with the same results and errors. `GetEntries` calls `GetUserByUserName` as the source does.
- `Services.UserService.DeleteUserByUserName` deletes by user name where the source calls `deleteById(userId)`. Under the invariant, user ids are distinct and each user has one, so the two select the same user.
- `Store.Database.Persist` fixes one id layout. It states exact ids: the user takes the next value of one shared generator and its journal the one after. The source only promises generated ids; the layout is an assumption about `@GeneratedValue`.
- `Services.JournalService.AddEntry` requires that a new entry carries no id and no journal and is not stored yet. A request body cannot set the package-private `journalEntryId` and a new object is fresh. Passing an already stored entry, or one with an id, is not modelled. An entry already bound to a journal is left out too: the public `setJournal` (src/main/java/com/example/gratitude_journal/journal/entry/JournalEntry.java:61-64) lets a JSON body bind a new `Journal` object, but that journal is never a stored one and the `@ManyToOne` reference has no cascade, so saving the entry would point at an unsaved object and fail when Hibernate flushes; the model has no state for that failure.
- An entry's hash code changes when its id is assigned while it sits in a `HashSet`. The journal's entry collection is a mathematical set, so that hazard is not modelled.
- `compareToEntry` is modelled as written. It throws on a null DTO field because it calls `equals` on the DTO's field; no finding is claimed, since the tests always pass fully filled DTOs.
- A journal's set does not always grow by one on a successful `Journal.addEntry`. `Journals.Journal.AddEntry` follows the code: `HashSet.add` is a no-op when an entry with an equal (possibly null) id is present. So at the level of the journal alone, the set grows by one only when no such entry exists. Through `Services.JournalService.AddEntry` it always grows by one.
- `getEntry`/`deleteEntry` with a null id are left out. Entry ids are integers; a null `Long` id (which Spring Data rejects with `IllegalArgumentException`) is not modelled.
- Strings are Dafny strings (`seq<char>`); Java's UTF-16 code units are taken as characters.
- The newest iteration's entity classes are assumed equal to the middle iteration's, as noted above, because they are not part of this model.
