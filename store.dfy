/**
 * The persistent state behind `UserRepository` and `JournalEntryRepository`: the stored
 * users, found by their unique user name, and the stored journal entries, found by id,
 * with the id generator and the cascades the entity mappings declare (saving a user saves
 * its journal and that journal's new entries; deleting a user deletes its journal and entries).
 */
module Store {
  import opened Wrappers
  import opened Errors
  import opened Names
  import opened Journals
  import opened Users
  import opened Listing

  /** The columns of a stored journal entry. */
  datatype EntryRow = EntryRow(date: Date, journal: Journal?, content: JournalEntryDTO)

  /** What an entry held before a merge: its journal, its content and its id. */
  datatype Snapshot = Snapshot(journal: Journal?, content: JournalEntryDTO, id: Option<int>)

  /**
   * The ghost bookkeeping of a merge in progress over journal `j`: the entry table and the
   * journal's entries as they were before it, the entries it had to save and those still to do.
   */
  datatype Progress = Progress(j: Journal, entries0: map<int, JournalEntry>,
                               before: map<JournalEntry, Snapshot>,
                               unsaved: set<JournalEntry>, todo: set<JournalEntry>)

  /**
   * The tables as values: users by name, entries by id, the (ghost) owner of each stored
   * entry and the next value of the id generator.
   */
  datatype Tables = Tables(users: map<string, User>, entries: map<int, JournalEntry>,
                           owner: map<int, string>, nextId: int)

  /**
   * A user fit to be stored under name `n`: named `n`, validly named, with a consistent
   * journal whose id the generator handed out right after the user's.
   */
  ghost predicate StoredUser(n: string, u: User)
    reads u, u.journal, u.journal.journalEntries
  {
    && u.userName == Some(n) && u.Valid() && u.userId.Some? && u.journal.journalId == Some(u.userId.value + 1)
    && u.journal.OnePerDate() && u.journal.OwnsEntries()
  }

  /** Entry `e` of user `n`'s journal is stored under its own id. */
  ghost predicate StoredAs(t: Tables, n: string, e: JournalEntry)
    reads e
  {
    && e.journalEntryId.Some?
    && e.journalEntryId.value in t.entries && t.entries[e.journalEntryId.value] == e
    && e.journalEntryId.value in t.owner && t.owner[e.journalEntryId.value] == n
  }

  /** Every user, journal and entry the tables reach is in `objs`. */
  ghost predicate Closed(t: Tables, objs: set<object>)
    reads objs
  {
    && (forall n | n in t.users ::
          t.users[n] in objs && t.users[n].journal in objs && t.users[n].journal.journalEntries <= objs)
    && (forall k | k in t.entries :: t.entries[k] in objs)
  }

  /** Stored users are well formed, with ids below the generator. */
  ghost predicate UsersOk(t: Tables, objs: set<object>)
    reads objs
    requires Closed(t, objs)
  {
    forall n | n in t.users ::
      StoredUser(n, t.users[n]) && (t.users[n].userId.Some? ==> t.users[n].userId.value < t.nextId)
  }

  /** No two users share a journal or an id. */
  ghost predicate Distinct(t: Tables, objs: set<object>)
    reads objs
    requires Closed(t, objs)
  {
    forall n, m | n in t.users && m in t.users && n != m ::
      t.users[n].journal != t.users[m].journal && t.users[n].userId != t.users[m].userId
  }

  /** Every stored entry carries its own key and sits in the journal of a stored user. */
  ghost predicate Indexed(t: Tables, objs: set<object>)
    reads objs
    requires Closed(t, objs)
  {
    forall k | k in t.entries ::
      && t.entries[k].journalEntryId == Some(k) && k < t.nextId
      && k in t.owner && t.owner[k] in t.users && t.entries[k] in t.users[t.owner[k]].journal.journalEntries
  }

  /**
   * Every entry of every journal is stored under its id, except the entries in `pending`,
   * which have not been given an id yet.
   */
  ghost predicate SavedExcept(t: Tables, objs: set<object>, pending: set<JournalEntry>)
    reads objs
    requires Closed(t, objs)
  {
    forall n, e | n in t.users && e in t.users[n].journal.journalEntries ::
      StoredAs(t, n, e) || (e in pending && e.journalEntryId == None)
  }

  /** Everything but the saving of new entries. */
  ghost predicate Sound(t: Tables, objs: set<object>)
    reads objs
  {
    Closed(t, objs) && UsersOk(t, objs) && Distinct(t, objs) && Indexed(t, objs)
  }

  /** The entries of user `name`'s journal that have no id yet. */
  ghost function Unsaved(t: Tables, name: string): set<JournalEntry>
    reads if name in t.users then {t.users[name].journal} + t.users[name].journal.journalEntries else {}
  {
    if name in t.users then set e | e in t.users[name].journal.journalEntries && e.journalEntryId == None
    else {}
  }

  /** The tables after storing new user `u`, which takes two ids (the user's and its journal's). */
  function WithUser(t: Tables, u: User): Tables
    reads u
    requires u.userName.Some?
  {
    t.(users := t.users[u.userName.value := u], nextId := t.nextId + 2)
  }

  /** The preconditions shared by the `Insert` lemmas. */
  ghost predicate Insertable(t: Tables, objs: set<object>, u: User)
    reads objs, u, u.journal
  {
    && Sound(t, objs) && u !in objs && u.journal !in objs && u.journal.journalEntries == {}
    && u.userName.Some? && u.userName.value !in t.users && StoredUser(u.userName.value, u)
    && u.userId == Some(t.nextId)
  }

  lemma InsertClosedUsers(t: Tables, objs: set<object>, u: User)
    requires Insertable(t, objs, u)
    ensures Closed(WithUser(t, u), objs + {u, u.journal}) && UsersOk(WithUser(t, u), objs + {u, u.journal})
  {
  }

  lemma InsertDistinct(t: Tables, objs: set<object>, u: User)
    requires Insertable(t, objs, u)
    ensures Closed(WithUser(t, u), objs + {u, u.journal}) && Distinct(WithUser(t, u), objs + {u, u.journal})
  {
    InsertClosedUsers(t, objs, u);
  }

  lemma InsertIndexed(t: Tables, objs: set<object>, u: User)
    requires Insertable(t, objs, u)
    ensures Closed(WithUser(t, u), objs + {u, u.journal}) && Indexed(WithUser(t, u), objs + {u, u.journal})
  {
    InsertClosedUsers(t, objs, u);
    var t' := WithUser(t, u);
    forall k | k in t'.entries
      ensures t'.owner[k] in t'.users && t'.users[t'.owner[k]] == t.users[t.owner[k]]
    {
      assert t.owner[k] in t.users;
    }
  }

  lemma InsertSaved(t: Tables, objs: set<object>, u: User)
    requires Insertable(t, objs, u) && SavedExcept(t, objs, {})
    ensures Closed(WithUser(t, u), objs + {u, u.journal}) && SavedExcept(WithUser(t, u), objs + {u, u.journal}, {})
  {
    InsertClosedUsers(t, objs, u);
    var t' := WithUser(t, u);
    forall n, e | n in t'.users && e in t'.users[n].journal.journalEntries
      ensures StoredAs(t', n, e)
    {
      assert n != u.userName.value && StoredAs(t, n, e);
    }
  }

  /** Storing a new, identified user keeps the tables sound and saved. */
  lemma InsertSound(t: Tables, objs: set<object>, u: User)
    requires Insertable(t, objs, u) && SavedExcept(t, objs, {})
    ensures Sound(WithUser(t, u), objs + {u, u.journal}) && SavedExcept(WithUser(t, u), objs + {u, u.journal}, {})
  {
    InsertClosedUsers(t, objs, u);
    InsertDistinct(t, objs, u);
    InsertIndexed(t, objs, u);
    InsertSaved(t, objs, u);
  }

  /** The entries of `m` that do not belong to journal `j`. */
  function OutsideJournal(m: map<int, JournalEntry>, j: Journal): (r: map<int, JournalEntry>)
    reads m.Values
    ensures forall k :: k in r <==> k in m && m[k].journal != j
    ensures forall k | k in r :: r[k] == m[k]
  {
    map k | k in m && m[k].journal != j :: m[k]
  }

  /** `m` restricted to the keys in `keys`. */
  function Restrict<V>(m: map<int, V>, keys: set<int>): (r: map<int, V>)
    ensures forall k :: k in r <==> k in m && k in keys
    ensures forall k | k in r :: r[k] == m[k]
  {
    map k | k in m && k in keys :: m[k]
  }

  /**
   * A table whose rows are keyed by their own ids and that kept every old row and gained
   * only rows holding `e` has gained exactly the row of `e`.
   */
  lemma GainedOneRow(m0: map<int, JournalEntry>, m1: map<int, JournalEntry>, k: int, e: JournalEntry)
    requires forall i | i in m0 :: i in m1 && m1[i] == m0[i]
    requires forall i | i in m1 && i !in m0 :: m1[i] == e
    requires forall i | i in m1 :: m1[i].journalEntryId == Some(i)
    requires k !in m0 && k in m1 && m1[k] == e
    ensures m1 == m0[k := e]
  {
    var m2 := m0[k := e];
    assert forall i :: i in m1 <==> i in m2;
    assert forall i | i in m1 :: m1[i] == m2[i];
  }

  /**
   * The `WHERE entry.journal.journalId = ?1` test of `getEntriesByJournalId`: the entry has
   * a journal whose id is `journalId`; a null parameter matches nothing, as in SQL.
   */
  predicate InJournalWithId(e: JournalEntry, journalId: Option<int>)
    reads e, e.journal
  {
    journalId.Some? && e.journal != null && e.journal.journalId == journalId
  }

  /** The user `UserService.addEntry` saves, and the new entry its journal has just admitted. */
  datatype Admission = Admission(name: string, entry: JournalEntry)

  class Database {
    /** The user table, indexed by the unique user name (`findByUserName`). */
    var users: map<string, User>
    /** The journal-entry table, indexed by primary key (`findById`). */
    var entries: map<int, JournalEntry>
    /** The next value of the id generator. */
    var nextId: int
    /** The user whose journal holds each stored entry. */
    ghost var owner: map<int, string>
    /** The users, journals and entries the database holds. */
    ghost var Repr: set<object>

    ghost function State(): Tables
      reads this
    {
      Tables(users, entries, owner, nextId)
    }


    /** Sound, with only the entries in `pending` not yet saved. */
    ghost predicate Consistent(pending: set<JournalEntry>)
      reads this, Repr
    {
      this !in Repr && Sound(State(), Repr) && SavedExcept(State(), Repr, pending)
    }

    /** The invariant between requests: sound, with nothing left unsaved. */
    ghost predicate Valid()
      reads this, Repr
    {
      Consistent({})
    }

    /** The entries of stored user `name`'s journal that have no id yet. */
    ghost function UnsavedOf(name: string): set<JournalEntry>
      reads this, if name in users then {users[name].journal} + users[name].journal.journalEntries else {}
    {
      Unsaved(State(), name)
    }

    /** What the API can observe of the users: id and names per user name. */
    ghost function UserView(): map<string, ReturnUserDTO>
      reads this`users, users.Values
    {
      map n | n in users :: users[n].ToReturnUserDTO()
    }

    /** Every stored entry carries its own key as its id. */
    lemma IdsAreKeys()
      requires Valid()
      ensures forall k | k in entries :: entries[k].journalEntryId == Some(k)
    {
      forall k | k in entries
        ensures entries[k].journalEntryId == Some(k)
      {
        StoredEntryFacts(k);
      }
    }

    /** A change that touches no user leaves the users' view as it was. */
    twostate lemma UsersKept()
      requires users == old(users) && unchanged(old(users).Values)
      ensures UserView() == old(UserView())
    { }

    /** A change that touches no stored entry leaves the entries' view as it was. */
    twostate lemma EntriesKept()
      requires entries == old(entries) && unchanged(old(entries).Values)
      ensures EntryView() == old(EntryView())
    { }

    /** What is stored of the entries: date, journal and content per id. */
    ghost function EntryView(): map<int, EntryRow>
      reads this`entries, entries.Values
    {
      map k | k in entries :: EntryRow(entries[k].date, entries[k].journal, entries[k].Content())
    }

    /**
     * What the invariant says of a stored user: it is stored under its own, valid user name,
     * it has an id, and its journal has an id, one entry per day and only saved entries,
     * each of which refers back to the journal.
     */
    lemma StoredUserFacts(name: string)
      requires Valid() && name in users
      ensures users[name].userName == Some(name) && users[name].Valid() && users[name].userId.Some?
      ensures users[name].journal.journalId.Some? && users[name].journal.OnePerDate()
      ensures forall e | e in users[name].journal.journalEntries ::
                e.journalEntryId.Some? && e.journal == users[name].journal
    {
      assert StoredUser(name, users[name]);
      NothingUnsaved(name);
    }

    /** What the invariant says of a stored entry: it carries its key and belongs to an identified journal. */
    lemma StoredEntryFacts(k: int)
      requires Valid() && k in entries
      ensures entries[k].journalEntryId == Some(k)
      ensures entries[k].journal != null && entries[k].journal.journalId.Some?
      ensures entries[k] in entries[k].journal.journalEntries
    {
      var n := owner[k];
      assert StoredUser(n, users[n]);
    }

    /**
     * When nothing but the content of stored entry `k` changed, the entry view changes at
     * `k` alone and the user view not at all.
     */
    twostate lemma EditView(k: int)
      requires old(Valid() && k in entries)
      requires users == old(users) && entries == old(entries)
      requires unchanged(old(Repr) - {entries[k]}) && entries[k].journal == old(entries[k].journal)
      ensures EntryView() == old(EntryView())[k := EntryRow(entries[k].date, entries[k].journal, entries[k].Content())]
      ensures UserView() == old(UserView())
    {
      forall k' | k' in entries && k' != k
        ensures entries[k'].journal == old(entries[k'].journal) && entries[k'].Content() == old(entries[k'].Content())
      {
        assert old(entries[k'].journalEntryId) == Some(k') && old(entries[k].journalEntryId) == Some(k);
        assert old(entries[k'] in Repr);
      }
      forall n | n in users
        ensures users[n].ToReturnUserDTO() == old(users[n].ToReturnUserDTO())
      {
        assert old(users[n] in Repr);
      }
    }

    /**
     * When the entry table gained a row under the fresh key `k` and every old row kept its
     * journal and content, the entry view gained the row of `k` alone.
     */
    twostate lemma GainedView(k: int)
      requires k !in old(entries) && k in entries && entries == old(entries)[k := entries[k]]
      requires forall i | i in old(entries) :: entries[i].journal == old(entries[i].journal) && entries[i].Content() == old(entries[i].Content())
      ensures EntryView() == old(EntryView())[k := EntryRow(entries[k].date, entries[k].journal, entries[k].Content())]
    {
      var view := old(EntryView())[k := EntryRow(entries[k].date, entries[k].journal, entries[k].Content())];
      assert EntryView().Keys == view.Keys;
      forall i | i in view
        ensures EntryView()[i] == view[i]
      {
        if i != k {
          assert entries[i] == old(entries[i]);
        }
      }
    }

    /** The database takes the entry a journal has just admitted into its footprint. */
    ghost method Adopt(e: JournalEntry)
      modifies this`Repr
      ensures Repr == old(Repr) + {e}
    {
      Repr := Repr + {e};
    }

    /**
     * When nothing but the fields of stored user `name` changed, the user view changes at
     * `name` alone and the entry view not at all.
     */
    twostate lemma RenameView(name: string)
      requires old(Valid() && name in users)
      requires users == old(users) && entries == old(entries)
      requires unchanged(old(Repr) - {users[name]})
      ensures UserView() == old(UserView())[name := users[name].ToReturnUserDTO()]
      ensures EntryView() == old(EntryView())
    {
      forall n | n in users && n != name
        ensures users[n].ToReturnUserDTO() == old(users[n].ToReturnUserDTO())
      {
        assert old(users[n].journal != users[name].journal);
        assert old(users[n] in Repr);
      }
      forall k | k in entries
        ensures entries[k].journal == old(entries[k].journal) && entries[k].Content() == old(entries[k].Content())
      {
        assert old(entries[k] in Repr);
      }
    }

    /** An empty database. */
    constructor ()
      ensures Valid() && Repr == {} && users == map[] && entries == map[]
    {
      users, entries, nextId := map[], map[], 1;
      owner := map[];
      Repr := {};
    }

    /**
     * `getEntriesByJournalId(journalId)`: one `(id, date)` row per stored entry of the journal
     * with that id, newest first.
     */
    method GetEntriesByJournalId(journalId: Option<int>) returns (r: seq<IdDatePair>)
      ensures DateDescending(r) && IdsDistinct(r)
      ensures forall p :: p in r <==>
                p.id in entries && InJournalWithId(entries[p.id], journalId) && p.date == entries[p.id].date
    {
      r := [];
      var keys := entries.Keys;
      while keys != {}
        invariant keys <= entries.Keys
        invariant DateDescending(r) && IdsDistinct(r) && Lists(r, entries.Keys - keys, journalId)
        decreases keys
      {
        if forall x :: x !in keys {
          assert false;
        }
        var k :| k in keys;
        var e := entries[k];
        if journalId.Some? && e.journal != null && e.journal.journalId == journalId {
          var row := IdDatePair(k, e.date);
          InsertByDateDescending(r, row);
          InsertByDateIdsDistinct(r, row);
          InsertByDateMembers(r, row);
          r := InsertByDate(r, row);
        }
        keys := keys - {k};
      }
    }

    /** `r` holds the rows of the entries among `done` that the query selects, and no others. */
    ghost predicate Lists(r: seq<IdDatePair>, done: set<int>, journalId: Option<int>)
      reads this, entries.Values, set e | e in entries.Values :: e.journal
      requires done <= entries.Keys
    {
      forall p :: p in r <==> p.id in done && InJournalWithId(entries[p.id], journalId) && p.date == entries[p.id].date
    }

    /**
     * Under the invariant, the journal id of a stored user's journal selects exactly the
     * stored entries of that journal, and every entry of that journal is stored.
     */
    lemma OwnJournalQuery(name: string)
      requires Valid() && name in users
      ensures forall k | k in entries ::
                InJournalWithId(entries[k], users[name].journal.journalId) <==> entries[k] in users[name].journal.journalEntries
      ensures forall e | e in users[name].journal.journalEntries ::
                e.journalEntryId.Some? && e.journalEntryId.value in entries && entries[e.journalEntryId.value] == e
    {
      var j := users[name].journal;
      assert StoredUser(name, users[name]);
      forall k | k in entries
        ensures InJournalWithId(entries[k], j.journalId) <==> entries[k] in j.journalEntries
      {
        var m := owner[k];
        assert StoredUser(m, users[m]);
        if InJournalWithId(entries[k], j.journalId) && m != name {
          assert false;
        }
      }
      forall e | e in j.journalEntries
        ensures e.journalEntryId.Some? && e.journalEntryId.value in entries && entries[e.journalEntryId.value] == e
      {
        assert StoredAs(State(), name, e);
      }
    }

    /**
     * The state in which `saveUser(name)` may be called: consistent with only the new entries
     * of `name`'s journal unsaved, or, when no user of that name is stored, the invariant.
     */
    ghost predicate Pending(name: string)
      reads this, Repr
    {
      if name in users then
        users[name].journal in Repr && users[name].journal.journalEntries <= Repr && Consistent(UnsavedOf(name))
      else Valid()
    }

    /** The invariant implies that every user may be saved. */
    lemma ValidIsPending(name: string)
      requires Valid()
      ensures Pending(name)
    {
      if name in users {
        NothingUnsaved(name);
      }
    }

    /**
     * `updateUser`'s setters: user `name` got new, valid first and last names and nothing
     * else changed, which keeps the invariant.
     */
    twostate lemma RenameValid(name: string)
      requires old(Valid() && name in users)
      requires users == old(users) && entries == old(entries) && owner == old(owner)
      requires nextId == old(nextId) && Repr == old(Repr)
      requires unchanged(old(Repr) - {users[name]})
      requires users[name].Valid() && users[name].userId == old(users[name].userId)
      ensures Valid()
    {
      assert old(StoredUser(name, users[name]));
      forall m | m in users
        ensures StoredUser(m, users[m])
      {
        assert old(StoredUser(m, users[m]));
      }
      assert Closed(State(), Repr) && UsersOk(State(), Repr);
      forall k | k in entries
        ensures entries[k] in users[owner[k]].journal.journalEntries
      {
        assert old(entries[k] in users[owner[k]].journal.journalEntries);
      }
      forall m, x | m in users && x in users[m].journal.journalEntries
        ensures StoredAs(State(), m, x)
      {
        assert old(StoredAs(State(), m, x));
      }
    }

    /**
     * `updateEntry`'s setters: the content of stored entry `k` changed, but not its id or
     * journal, and nothing else changed, which keeps the invariant.
     */
    twostate lemma EditValid(k: int)
      requires old(Valid() && k in entries)
      requires users == old(users) && entries == old(entries) && owner == old(owner)
      requires nextId == old(nextId) && Repr == old(Repr)
      requires unchanged(old(Repr) - {entries[k]})
      requires entries[k].journal == old(entries[k].journal)
      requires entries[k].journalEntryId == old(entries[k].journalEntryId)
      ensures Valid()
    {
      forall m | m in users
        ensures StoredUser(m, users[m])
      {
        assert old(StoredUser(m, users[m]));
      }
      assert Closed(State(), Repr) && UsersOk(State(), Repr);
      forall k' | k' in entries
        ensures entries[k'].journalEntryId == Some(k')
      {
        assert old(entries[k'].journalEntryId) == Some(k');
      }
      forall m, x | m in users && x in users[m].journal.journalEntries
        ensures StoredAs(State(), m, x)
      {
        assert old(StoredAs(State(), m, x));
      }
    }

    /**
     * The step of `Journal.addEntry` on the journal of stored user `a.name`: the journal
     * gained the unsaved entry `a.entry`, now bound to it, and nothing else changed.
     */
    twostate predicate Admitted(a: Admission)
      reads this, Repr
    {
      && old(Valid() && a.name in users) && users == old(users)
      && entries == old(entries) && owner == old(owner) && nextId == old(nextId)
      && old(a.entry !in Repr && a.entry.journalEntryId == None) && Repr == old(Repr) + {a.entry}
      && var j := users[a.name].journal;
         && j.journalEntries == old(j.journalEntries) + {a.entry} && j.journalId == old(j.journalId)
         && j.OnePerDate() && a.entry.journal == j && a.entry.journalEntryId == None
         && unchanged(old(Repr) - {j})
    }

    twostate lemma AdmitValid(a: Admission)
      requires Admitted(a)
      ensures Pending(a.name) && UnsavedOf(a.name) == {a.entry}
    {
      AdmitSound(a);
      AdmitSaved(a);
      forall x | x in UnsavedOf(a.name)
        ensures x == a.entry
      {
        if x != a.entry {
          assert false;
        }
      }
    }

    /** An admission changes no stored entry, so the entries' view stays as it was. */
    twostate lemma AdmitKeepsEntries(a: Admission)
      requires Admitted(a)
      ensures EntryView() == old(EntryView())
    {
      var j := old(users[a.name].journal);
      forall k | k in old(entries)
        ensures old(entries[k]) in old(Repr) - {j}
      {
        assert old(Closed(State(), Repr));
      }
      assert unchanged(old(entries).Values);
      EntriesKept();
    }

    twostate lemma AdmitSound(a: Admission)
      requires Admitted(a)
      ensures this !in Repr && Sound(State(), Repr)
    {
      forall m | m in users
        ensures StoredUser(m, users[m])
      {
        assert old(StoredUser(m, users[m]));
      }
      assert Closed(State(), Repr) && UsersOk(State(), Repr);
      forall k | k in entries
        ensures entries[k] in users[owner[k]].journal.journalEntries && entries[k].journalEntryId == Some(k)
      {
        assert old(entries[k] in users[owner[k]].journal.journalEntries);
        assert old(entries[k].journalEntryId) == Some(k);
      }
    }

    twostate lemma AdmitSaved(a: Admission)
      requires Admitted(a) && Sound(State(), Repr)
      ensures SavedExcept(State(), Repr, {a.entry})
    {
      forall m, x | m in users && x in users[m].journal.journalEntries
        ensures StoredAs(State(), m, x) || (x == a.entry && x.journalEntryId == None)
      {
        if x != a.entry {
          assert old(StoredAs(State(), m, x));
        }
      }
    }

    /**
     * `save` of a new user: assigns fresh ids to the user and its (empty) journal and
     * stores the user under its name.
     */
    method Persist(u: User)
      requires Valid()
      requires u !in Repr && u.journal !in Repr
      requires u.Valid() && u.userName.Some? && u.userName.value !in users
      requires u.userId == None && u.journal.journalEntries == {}
      modifies this, u`userId, u.journal`journalId
      ensures Valid() && Repr == old(Repr) + {u, u.journal}
      ensures users == old(users)[u.userName.value := u] && entries == old(entries)
      ensures u.userId == Some(old(nextId)) && u.journal.journalId == Some(old(nextId) + 1)
      ensures UserView() == old(UserView())[u.userName.value := u.ToReturnUserDTO()]
    {
      label Start:
      GenerateIds(u);
      Insert(u);
      InsertView@Start(u);
    }

    /** Storing new user `u` adds its row to the user view and changes no other row. */
    twostate lemma InsertView(u: User)
      requires old(Valid() && u !in Repr && u.userName.Some?)
      requires users == old(users)[u.userName.value := u] && unchanged(old(Repr))
      ensures UserView() == old(UserView())[u.userName.value := u.ToReturnUserDTO()]
    {
      forall n | n in users && n != u.userName.value
        ensures users[n].ToReturnUserDTO() == old(users[n].ToReturnUserDTO())
      {
        assert old(users[n] in Repr);
      }
    }

    /** The id generator hands out ids for a new user and its journal. */
    method GenerateIds(u: User)
      requires u.userName.Some? && u.Valid() && u.journal.journalEntries == {}
      modifies u`userId, u.journal`journalId
      ensures u.userId == Some(nextId) && u.journal.journalId == Some(nextId + 1)
      ensures StoredUser(u.userName.value, u)
    {
      u.userId := Some(nextId);
      u.journal.journalId := Some(nextId + 1);
    }

    /** Stores an identified new user under its name, past whose ids the generator moves. */
    method Insert(u: User)
      requires Valid()
      requires u !in Repr && u.journal !in Repr && u.journal.journalEntries == {}
      requires u.userName.Some? && u.userName.value !in users && StoredUser(u.userName.value, u)
      requires u.userId == Some(nextId)
      modifies this
      ensures Valid() && Repr == old(Repr) + {u, u.journal}
      ensures users == old(users)[u.userName.value := u] && entries == old(entries)
      ensures nextId == old(nextId) + 2
    {
      users := users[u.userName.value := u];
      nextId := nextId + 2;
      Repr := Repr + {u, u.journal};
      InsertValid(u);
    }

    twostate lemma InsertValid(u: User)
      requires old(Valid())
      requires old(u !in Repr && u.journal !in Repr && u.journal.journalEntries == {})
      requires old(u.userName.Some? && u.userName.value !in users && StoredUser(u.userName.value, u))
      requires old(u.userId == Some(nextId))
      requires unchanged(old(Repr)) && unchanged(u, u.journal)
      requires users == old(users)[u.userName.value := u] && nextId == old(nextId) + 2
      requires entries == old(entries) && owner == old(owner) && Repr == old(Repr) + {u, u.journal}
      ensures Valid()
    {
      ghost var t, objs := old(State()), old(Repr);
      assert old(Insertable(t, objs, u) && SavedExcept(t, objs, {}));
      assert Insertable(t, objs, u) && SavedExcept(t, objs, {});
      InsertSound(t, objs, u);
      assert State() == WithUser(t, u);
    }

    /** Under the invariant, no journal holds an entry without an id. */
    lemma NothingUnsaved(name: string)
      requires Valid() && name in users
      ensures UnsavedOf(name) == {}
    {
      forall e | e in users[name].journal.journalEntries
        ensures e.journalEntryId.Some?
      {
        assert StoredAs(State(), name, e);
      }
    }

    /**
     * `save` of a stored user: the merge cascades to the user's journal, and every entry
     * of that journal that is not yet stored gets the next id and is stored under it.
     */
    method Merge(name: string)
      requires name in users && Consistent(UnsavedOf(name))
      modifies this, users[name].journal.journalEntries
      ensures Valid() && users == old(users) && Repr == old(Repr)
      ensures forall k | k in old(entries) :: k in entries && entries[k] == old(entries[k])
      ensures forall k | k in entries && k !in old(entries) ::
                entries[k] in old(UnsavedOf(name)) && entries[k].journalEntryId == Some(k)
      ensures forall e | e in old(UnsavedOf(name)) ::
                e.journalEntryId.Some? && e.journalEntryId.value !in old(entries)
                && e.journalEntryId.value in entries && entries[e.journalEntryId.value] == e
      ensures forall e | e in users[name].journal.journalEntries ::
                && e.journal == old(e.journal) && e.Content() == old(e.Content())
                && (e !in old(UnsavedOf(name)) ==> e.journalEntryId == old(e.journalEntryId))
      ensures old(UnsavedOf(name)) == {} ==> entries == old(entries)
      ensures UserView() == old(UserView())
    {
      ghost var p := StartMerge(name);
      StoreAll(name, p);
      if p.unsaved == {} {
        MergeDone(p.(todo := {}));
      }
      forall k | k in entries && k !in p.entries0
        ensures entries[k].journalEntryId == Some(k)
      {
        assert Indexed(State(), Repr);
      }
    }

    /**
     * `save` of a stored user under the invariant: the merge finds nothing to store, so
     * neither the tables nor what they show change.
     */
    method SaveClean(name: string)
      requires Valid() && name in users
      modifies this, users[name].journal.journalEntries
      ensures Valid() && users == old(users) && entries == old(entries) && Repr == old(Repr)
      ensures UserView() == old(UserView()) && EntryView() == old(EntryView())
    {
      NothingUnsaved(name);
      Merge(name);
      forall k | k in entries
        ensures entries[k].journal == old(entries[k].journal) && entries[k].Content() == old(entries[k].Content())
      {
        if entries[k] !in users[name].journal.journalEntries {
          assert old(entries[k] in Repr);
        }
      }
    }

    /** Before a merge has stored anything, it has made (no) progress. */
    lemma StartMerge(name: string) returns (p: Progress)
      requires name in users && Consistent(UnsavedOf(name))
      ensures p.j == users[name].journal && p.entries0 == entries
      ensures p.unsaved == UnsavedOf(name) && p.todo == UnsavedOf(name)
      ensures p.before.Keys == p.j.journalEntries
      ensures forall e | e in p.j.journalEntries ::
                p.before[e] == Snapshot(e.journal, e.Content(), e.journalEntryId)
      ensures Progressed(p)
    {
      var j := users[name].journal;
      p := Progress(j, entries, map e | e in j.journalEntries :: Snapshot(e.journal, e.Content(), e.journalEntryId),
                    UnsavedOf(name), UnsavedOf(name));
      assert forall k | k in entries :: k < nextId;
    }

    /** The loop of the merge: stores, one by one, the entries `p0` still has to do. */
    method StoreAll(name: string, ghost p0: Progress)
      requires name in users && p0.j == users[name].journal
      requires p0.todo == UnsavedOf(name) && Consistent(p0.todo) && Progressed(p0)
      modifies this, p0.todo
      ensures users == old(users) && Repr == old(Repr) && Valid() && Progressed(p0.(todo := {}))
      ensures UserView() == old(UserView())
    {
      ghost var p := p0;
      var todo := set e | e in users[name].journal.journalEntries && e.journalEntryId == None;
      while todo != {}
        invariant users == old(users) && Repr == old(Repr) && p0.j == users[name].journal
        invariant p == p0.(todo := todo) && todo <= p0.todo
        invariant todo == UnsavedOf(name) && Consistent(todo) && Progressed(p)
        invariant UserView() == old(UserView())
        decreases todo
      {
        var e :| e in todo;
        StoreNext(name, e, p);
        todo, p := todo - {e}, p.(todo := p.todo - {e});
      }
    }

    /** A finished merge with nothing to save leaves the entry table as it was. */
    lemma MergeDone(p: Progress)
      requires Progressed(p) && p.todo == {} && p.unsaved == {}
      ensures entries == p.entries0
    {
      forall k
        ensures k in entries <==> k in p.entries0
      {
        if k in entries && k !in p.entries0 {
          assert false;
        }
      }
      assert entries.Keys == p.entries0.Keys;
      assert forall k | k in entries :: entries[k] == p.entries0[k];
    }

    /**
     * The merge over `p.j` has stored exactly the entries of `p.unsaved - p.todo`, each under
     * a fresh key, and has changed nothing else about the journal's entries or the table.
     */
    ghost predicate Progressed(p: Progress)
      reads this, p.j, p.j.journalEntries
    {
      && p.before.Keys == p.j.journalEntries && p.todo <= p.unsaved <= p.j.journalEntries
      && (forall e | e in p.todo :: e.journalEntryId == None)
      && (forall k | k in p.entries0 :: k < nextId && k in entries && entries[k] == p.entries0[k])
      && (forall k | k in entries && k !in p.entries0 :: k < nextId && entries[k] in p.unsaved - p.todo)
      && (forall e | e in p.unsaved - p.todo ::
            e.journalEntryId.Some? && e.journalEntryId.value !in p.entries0
            && e.journalEntryId.value in entries && entries[e.journalEntryId.value] == e)
      && (forall e | e in p.j.journalEntries ::
            && e.journal == p.before[e].journal && e.Content() == p.before[e].content
            && (e !in p.unsaved ==> e.journalEntryId == p.before[e].id))
    }

    /** One step of the merge: `StoreNew` on an entry still to do, which makes progress. */
    method StoreNext(name: string, e: JournalEntry, ghost p: Progress)
      requires name in users && p.j == users[name].journal
      requires p.todo == UnsavedOf(name) && Consistent(p.todo) && Progressed(p) && e in p.todo
      modifies this, e`journalEntryId
      ensures users == old(users) && Repr == old(Repr)
      ensures p.todo - {e} == UnsavedOf(name) && Consistent(p.todo - {e})
      ensures Progressed(p.(todo := p.todo - {e}))
      ensures UserView() == old(UserView())
    {
      label Before:
      StoreNew(name, e);
      MergeStep@Before(p);
    }

    /** Storing the next entry still to do, as `StoreNew` does, makes progress. */
    twostate lemma MergeStep(p: Progress)
      requires old(Progressed(p)) && old(nextId) in entries
      requires entries[old(nextId)] in p.todo
      requires entries[old(nextId)].journalEntryId == Some(old(nextId))
      requires entries == old(entries)[old(nextId) := entries[old(nextId)]]
      requires nextId == old(nextId) + 1
      requires unchanged(p.j)
      requires unchanged(p.j.journalEntries - {entries[old(nextId)]})
      requires var e := entries[old(nextId)]; e.journal == old(e.journal)
      requires var e := entries[old(nextId)]; e.Content() == old(e.Content())
      ensures Progressed(p.(todo := p.todo - {entries[old(nextId)]}))
    {
    }

    /** The cascade stores one entry of user `name`'s journal under the next id. */
    method StoreNew(name: string, e: JournalEntry)
      requires name in users && Consistent(UnsavedOf(name)) && e in UnsavedOf(name)
      modifies this, e`journalEntryId
      ensures Consistent(UnsavedOf(name)) && UnsavedOf(name) == old(UnsavedOf(name)) - {e}
      ensures e.journalEntryId == Some(old(nextId)) && old(nextId) !in old(entries)
      ensures entries == old(entries)[old(nextId) := e] && nextId == old(nextId) + 1
      ensures users == old(users) && Repr == old(Repr)
      ensures UserView() == old(UserView())
    {
      e.journalEntryId := Some(nextId);
      entries, nextId := entries[nextId := e], nextId + 1;
      owner := owner[nextId - 1 := name];
      StoreNewValid(e);
      UsersKept();
    }

    /**
     * The step of `StoreNew`: `e`, unsaved in the journal of the user `owner` now records
     * for the generator's old value, has been stored under that value.
     */
    twostate predicate StoredNew(e: JournalEntry)
      reads this, Repr
    {
      && Repr == old(Repr) && old(e in Repr && e.journalEntryId == None)
      && unchanged(old(Repr) - {e}) && unchanged(e`journal)
      && old(nextId) in owner && owner == old(owner)[old(nextId) := owner[old(nextId)]]
      && (var name := owner[old(nextId)]; old(name in users && e in users[name].journal.journalEntries))
      && e.journalEntryId == Some(old(nextId))
      && entries == old(entries)[old(nextId) := e]
      && nextId == old(nextId) + 1 && users == old(users)
    }

    twostate lemma StoreNewValid(e: JournalEntry)
      requires StoredNew(e)
      requires var name := owner[old(nextId)]; old(Consistent(UnsavedOf(name)) && e in UnsavedOf(name))
      ensures Consistent(UnsavedOf(owner[old(nextId)]))
      ensures var name := owner[old(nextId)]; UnsavedOf(name) == old(UnsavedOf(name)) - {e}
      ensures old(nextId) !in old(entries)
    {
      StoreNewUsers(e);
      StoreNewIndexed(e);
      StoreNewSaved(e);
    }

    twostate lemma StoreNewUsers(e: JournalEntry)
      requires old(this !in Repr && Closed(State(), Repr) && UsersOk(State(), Repr) && Distinct(State(), Repr))
      requires StoredNew(e)
      ensures this !in Repr && Closed(State(), Repr) && UsersOk(State(), Repr) && Distinct(State(), Repr)
    {
      forall n | n in users
        ensures StoredUser(n, users[n])
      {
        assert old(StoredUser(n, users[n]));
      }
    }

    twostate lemma StoreNewIndexed(e: JournalEntry)
      requires old(this !in Repr && Closed(State(), Repr) && Indexed(State(), Repr)) && Closed(State(), Repr)
      requires StoredNew(e)
      ensures Indexed(State(), Repr) && old(nextId) !in old(entries)
    {
      forall k | k in old(entries)
        ensures old(entries[k]) != e && entries[k].journalEntryId == Some(k) && k < old(nextId)
      {
        assert old(entries[k].journalEntryId) == Some(k);
      }
    }

    twostate lemma StoreNewSaved(e: JournalEntry)
      requires old(this !in Repr && Sound(State(), Repr)) && Closed(State(), Repr)
      requires StoredNew(e)
      requires var name := owner[old(nextId)]; old(SavedExcept(State(), Repr, UnsavedOf(name)))
      requires old(nextId) !in old(entries)
      ensures SavedExcept(State(), Repr, UnsavedOf(owner[old(nextId)]))
      ensures var name := owner[old(nextId)]; UnsavedOf(name) == old(UnsavedOf(name)) - {e}
    {
      var name := owner[old(nextId)];
      var t, t' := old(State()), State();
      forall n, x | n in users && x in users[n].journal.journalEntries
        ensures StoredAs(t', n, x) || (x in UnsavedOf(name) && x.journalEntryId == None)
      {
        if x == e {
          assert old(StoredUser(n, users[n]) && StoredUser(name, users[name]));
        } else {
          assert old(StoredAs(t, n, x) || (x in UnsavedOf(name) && x.journalEntryId == None));
        }
      }
    }

    /** `delete` of a stored entry: it leaves the table and its journal's set. */
    method RemoveEntry(journalEntryId: int)
      requires Valid() && journalEntryId in entries
      modifies this, entries[journalEntryId].journal
      ensures Valid() && Repr == old(Repr) && users == old(users)
      ensures entries == old(entries) - {journalEntryId}
      ensures old(entries[journalEntryId].journal) != null
      ensures old(entries[journalEntryId].journal).journalEntries
              == old(entries[journalEntryId].journal.journalEntries) - {old(entries[journalEntryId])}
      ensures old(entries[journalEntryId].journal).journalId == old(entries[journalEntryId].journal.journalId)
      ensures UserView() == old(UserView())
    {
      var e := entries[journalEntryId];
      ghost var n := owner[journalEntryId];
      assert e in users[n].journal.journalEntries;
      assert e.journal == users[n].journal;
      var j := e.journal;
      j.journalEntries := j.journalEntries - {e};
      entries := entries - {journalEntryId};
      owner := owner - {journalEntryId};
      RemoveValid(journalEntryId);
      UsersKept();
    }

    twostate lemma RemoveValid(k: int)
      requires old(Valid() && k in entries && k in owner && owner[k] in users)
      requires old(entries[k].journal) == old(users[owner[k]].journal)
      requires var j := old(users[owner[k]].journal);
               j.journalEntries == old(j.journalEntries) - {old(entries[k])} && j.journalId == old(j.journalId)
               && unchanged(old(Repr) - {j})
      requires users == old(users) && entries == old(entries) - {k} && owner == old(owner) - {k}
      requires nextId == old(nextId) && Repr == old(Repr)
      ensures Valid()
    {
      var t, t' := old(State()), State();
      var n := old(owner[k]);
      var j := users[n].journal;
      var e := old(entries[k]);
      assert Closed(t', Repr);
      forall m | m in users
        ensures StoredUser(m, users[m]) && (users[m].userId.Some? ==> users[m].userId.value < nextId)
      {
        assert old(StoredUser(m, users[m]));
      }
      assert UsersOk(t', Repr);
      assert Distinct(t', Repr);
      forall k' | k' in entries
        ensures entries[k'] in users[owner[k']].journal.journalEntries
      {
        assert old(entries[k'].journalEntryId) == Some(k');
      }
      assert Indexed(t', Repr);
      forall m, x | m in users && x in users[m].journal.journalEntries
        ensures StoredAs(t', m, x)
      {
        assert old(StoredAs(t, m, x));
        assert x != e by {
          if users[m].journal != j {
            assert old(StoredUser(m, users[m]));
          }
        }
      }
    }

    /** `deleteById` of a stored user: the user, its journal and all of that journal's entries go. */
    method DeleteUser(name: string)
      requires Valid() && name in users
      modifies this
      ensures Valid() && Repr == old(Repr)
      ensures users == old(users) - {name}
      ensures forall k :: k in entries <==> k in old(entries) && old(entries[k].journal) != old(users[name].journal)
      ensures forall k | k in entries :: entries[k] == old(entries[k])
    {
      var j := users[name].journal;
      entries := OutsideJournal(entries, j);
      owner := Restrict(owner, entries.Keys);
      users := users - {name};
      DeleteValid(name);
    }

    twostate lemma DeleteValid(name: string)
      requires old(Valid() && name in users)
      requires unchanged(old(Repr))
      requires users == old(users) - {name}
      requires entries == old(OutsideJournal(entries, users[name].journal))
      requires owner == Restrict(old(owner), entries.Keys)
      requires nextId == old(nextId) && Repr == old(Repr)
      ensures Valid()
    {
      var t, t' := old(State()), State();
      var j := old(users[name].journal);
      assert Closed(t', Repr);
      forall m | m in users
        ensures StoredUser(m, users[m]) && (users[m].userId.Some? ==> users[m].userId.value < nextId)
      {
        assert old(StoredUser(m, users[m]));
      }
      assert UsersOk(t', Repr);
      assert Distinct(t', Repr);
      forall k | k in entries
        ensures owner[k] in users
      {
        assert old(entries[k] in users[owner[k]].journal.journalEntries);
        assert old(StoredUser(owner[k], users[owner[k]]));
      }
      assert Indexed(t', Repr);
      forall m, x | m in users && x in users[m].journal.journalEntries
        ensures StoredAs(t', m, x)
      {
        assert old(StoredAs(t, m, x));
        assert old(StoredUser(m, users[m]));
      }
    }
  }
}
