/**
 * The journal entities: `JournalEntry` (one day's gratitude record), `Journal` (a user's
 * set of entries, admitting at most one entry per day), the `WellBeing` scale and the
 * `JournalEntryDTO` record with its `compareToEntry` check.
 *
 * Both classes live in one module because each refers to the other: an entry holds a
 * set-once back-reference to its journal.
 */
module Journals {
  import opened Wrappers
  import opened Errors
  import JavaHash

  /** `JournalEntry.WellBeing`, from worst to best. */
  datatype WellBeing = Awful | Bad | MildlyBad | Neutral | MildlyGood | Good | Fantastic

  /** `WellBeing.values()`, in declaration order. */
  const WellBeingValues: seq<WellBeing> := [Awful, Bad, MildlyBad, Neutral, MildlyGood, Good, Fantastic]

  /** `WellBeing.ordinal()`: the position of `w` in the declaration order. */
  function Ordinal(w: WellBeing): (n: nat)
    ensures n < |WellBeingValues| && WellBeingValues[n] == w
  {
    match w
    case Awful => 0
    case Bad => 1
    case MildlyBad => 2
    case Neutral => 3
    case MildlyGood => 4
    case Good => 5
    case Fantastic => 6
  }

  /** The scale has exactly seven distinct levels, and `ordinal()` enumerates them in order. */
  lemma WellBeingHasSevenOrderedLevels()
    ensures |WellBeingValues| == 7
    ensures forall i :: 0 <= i < 7 ==> Ordinal(WellBeingValues[i]) == i
    ensures forall i, j :: 0 <= i < j < 7 ==> WellBeingValues[i] != WellBeingValues[j]
    ensures Ordinal(Awful) == 0 && Ordinal(Fantastic) == 6
  {
  }

  /**
   * `JournalEntryDTO`: the five client-supplied fields of an entry. It is also the shape
   * of an entry's mutable content (see `JournalEntry.Content`); a `None` field is a Java null.
   */
  datatype JournalEntryDTO = JournalEntryDTO(
    wellBeing: Option<WellBeing>,
    gratefulForToday: Option<string>,
    gratefulForTodayDescription: Option<string>,
    gratefulForInLife: Option<string>,
    gratefulForInLifeDescription: Option<string>)

  /** True when none of the DTO's five fields is null. */
  predicate NoNullField(d: JournalEntryDTO) {
    d.wellBeing.Some? && d.gratefulForToday.Some? && d.gratefulForTodayDescription.Some?
    && d.gratefulForInLife.Some? && d.gratefulForInLifeDescription.Some?
  }

  /** `receiver.equals(arg)`: a null receiver throws; `equals(null)` is false. */
  function JavaEquals<T(==)>(receiver: Option<T>, arg: Option<T>): Result<bool, Error> {
    if receiver.None? then Failure(NullPointer) else Success(arg == receiver)
  }

  /** Java's short-circuit `a && b` where either operand may throw: `b` only matters when `a` is true. */
  function AndThen(a: Result<bool, Error>, b: Result<bool, Error>): Result<bool, Error> {
    if a != Success(true) then a else b
  }

  /** `JournalEntryDTO.compareToEntry` once both arguments are known to be non-null. */
  function CompareFields(dto: JournalEntryDTO, content: JournalEntryDTO): Result<bool, Error> {
    AndThen(JavaEquals(dto.wellBeing, content.wellBeing),
    AndThen(JavaEquals(dto.gratefulForToday, content.gratefulForToday),
    AndThen(JavaEquals(dto.gratefulForTodayDescription, content.gratefulForTodayDescription),
    AndThen(JavaEquals(dto.gratefulForInLife, content.gratefulForInLife),
            JavaEquals(dto.gratefulForInLifeDescription, content.gratefulForInLifeDescription)))))
  }

  /**
   * `JournalEntryDTO.compareToEntry(entryDTO, entry)`: equal when both are null, unequal
   * when one is, and otherwise the five mutable fields compared pairwise; the entry's
   * date, id and journal take no part. The DTO's fields are dereferenced, so a null DTO
   * field reached by the comparison throws.
   */
  function CompareToEntry(dto: Option<JournalEntryDTO>, entry: JournalEntry?): (r: Result<bool, Error>)
    reads entry
    ensures dto.None? && entry == null ==> r == Success(true)
    ensures dto.None? != (entry == null) ==> r == Success(false)
    ensures dto.Some? && entry != null && NoNullField(dto.value) ==> r == Success(dto.value == entry.Content())
    ensures r.Failure? ==> r.error == NullPointer && dto.Some? && !NoNullField(dto.value)
    ensures dto.Some? && dto.value.wellBeing.None? && entry != null ==> r == Failure(NullPointer)
  {
    if dto.None? && entry == null then Success(true)
    else if dto.None? || entry == null then Success(false)
    else CompareFields(dto.value, entry.Content())
  }

  /**
   * Comparing a DTO with an entry that holds exactly the DTO's content: true when the DTO
   * has no null field, and otherwise the `NullPointerException` of its first null field.
   */
  lemma CompareToOwnContent(dto: JournalEntryDTO, entry: JournalEntry)
    requires entry.Content() == dto
    ensures CompareToEntry(Some(dto), entry) == if NoNullField(dto) then Success(true) else Failure(NullPointer)
  {
  }

  /** `JournalEntry`: a dated gratitude record that belongs to at most one journal. */
  class JournalEntry {
    /** Primary key; null until the entry is first persisted. */
    var journalEntryId: Option<int>
    /** Back-reference to the owning journal; once non-null it never changes. */
    var journal: Journal?
    /** The creation day: it has no setter and its column is not updatable. */
    const date: Date
    var wellBeing: Option<WellBeing>
    var gratefulForToday: Option<string>
    var gratefulForTodayDescription: Option<string>
    var gratefulForInLife: Option<string>
    var gratefulForInLifeDescription: Option<string>

    /** The five mutable fields, in the shape of a `JournalEntryDTO`. */
    function Content(): JournalEntryDTO
      reads this`wellBeing, this`gratefulForToday, this`gratefulForTodayDescription,
            this`gratefulForInLife, this`gratefulForInLifeDescription
    {
      JournalEntryDTO(wellBeing, gratefulForToday, gratefulForTodayDescription,
                      gratefulForInLife, gratefulForInLifeDescription)
    }

    /** `JournalEntry()`: an unbound, unsaved entry dated today with all content null. */
    constructor (today: Date)
      ensures date == today && journal == null && journalEntryId == None
      ensures Content() == JournalEntryDTO(None, None, None, None, None)
    {
      date := today;
      journal := null;
      journalEntryId := None;
      wellBeing, gratefulForToday, gratefulForTodayDescription := None, None, None;
      gratefulForInLife, gratefulForInLifeDescription := None, None;
    }

    /** `JournalEntry(journal)`: as above, but bound to `journal` at once. */
    constructor InJournal(journal: Journal?, today: Date)
      ensures date == today && this.journal == journal && journalEntryId == None
      ensures Content() == JournalEntryDTO(None, None, None, None, None)
    {
      date := today;
      this.journal := journal;
      journalEntryId := None;
      wellBeing, gratefulForToday, gratefulForTodayDescription := None, None, None;
      gratefulForInLife, gratefulForInLifeDescription := None, None;
    }

    /** `setJournal`: assigns only while no journal is set, so the reference is set at most once. */
    method SetJournal(journal: Journal?)
      modifies this`journal
      ensures this.journal == if old(this.journal) == null then journal else old(this.journal)
    {
      if this.journal == null {
        this.journal := journal;
      }
    }

    method SetWellBeing(wellBeing: Option<WellBeing>)
      modifies this`wellBeing
      ensures Content() == old(Content()).(wellBeing := wellBeing)
    {
      this.wellBeing := wellBeing;
    }

    method SetGratefulForToday(gratefulForToday: Option<string>)
      modifies this`gratefulForToday
      ensures Content() == old(Content()).(gratefulForToday := gratefulForToday)
    {
      this.gratefulForToday := gratefulForToday;
    }

    method SetGratefulForTodayDescription(gratefulForTodayDescription: Option<string>)
      modifies this`gratefulForTodayDescription
      ensures Content() == old(Content()).(gratefulForTodayDescription := gratefulForTodayDescription)
    {
      this.gratefulForTodayDescription := gratefulForTodayDescription;
    }

    method SetGratefulForInLife(gratefulForInLife: Option<string>)
      modifies this`gratefulForInLife
      ensures Content() == old(Content()).(gratefulForInLife := gratefulForInLife)
    {
      this.gratefulForInLife := gratefulForInLife;
    }

    method SetGratefulForInLifeDescription(gratefulForInLifeDescription: Option<string>)
      modifies this`gratefulForInLifeDescription
      ensures Content() == old(Content()).(gratefulForInLifeDescription := gratefulForInLifeDescription)
    {
      this.gratefulForInLifeDescription := gratefulForInLifeDescription;
    }

    /** `equals`: identity, or two entries with the same (possibly null) id. */
    function Equals(o: JournalEntry?): (r: bool)
      reads this, o
      ensures r <==> o != null && journalEntryId == o.journalEntryId
    {
      if this == o then true
      else if o == null then false
      else journalEntryId == o.journalEntryId
    }

    /**
     * `hashCode`: `Objects.hash(journalEntryId)`, which is `31 + Long.hashCode(id)` in 32-bit
     * arithmetic, and 31 for an unsaved entry.
     */
    function HashCode(): (h: int)
      reads this
      ensures JavaHash.IsInt32(h) && JavaHash.SameInt32(h, 31 + JavaHash.NullableLongHash(journalEntryId))
      ensures journalEntryId == None ==> h == 31
    {
      JavaHash.ObjectsHashPolynomial(JavaHash.NullableLongHash(journalEntryId), 0, 0, 0);
      JavaHash.ObjectsHash([JavaHash.NullableLongHash(journalEntryId)])
    }
  }

  /** Equal entries hash equally, because both depend on the id alone. */
  lemma EntryEqualsImpliesSameHash(a: JournalEntry, b: JournalEntry)
    requires a.Equals(b)
    ensures a.HashCode() == b.HashCode()
  {
  }

  /** `Journal`: a set of entries with at most one entry per calendar day. */
  class Journal {
    /** Primary key; null until the journal is first persisted. */
    var journalId: Option<int>
    /** The entries; a `HashSet` whose element equality is `JournalEntry.equals`. */
    var journalEntries: set<JournalEntry>

    /** `Journal()`: no id and an empty entry set. */
    constructor ()
      ensures journalId == None && journalEntries == {}
    {
      journalId := None;
      journalEntries := {};
    }

    /** The days on which the journal has an entry. */
    function Dates(): set<Date>
      reads this
    {
      set e | e in journalEntries :: e.date
    }

    /** `hasEntryForToday`: some entry is dated `today`. */
    predicate HasEntryForToday(today: Date)
      reads this
      ensures HasEntryForToday(today) <==> today in Dates()
    {
      exists e | e in journalEntries :: today == e.date
    }

    /** The journal invariant: no two entries share a date. */
    predicate OnePerDate()
      reads this
    {
      forall a, b | a in journalEntries && b in journalEntries && a.date == b.date :: a == b
    }

    /** Every entry of the journal refers back to it. */
    predicate OwnsEntries()
      reads this, journalEntries
    {
      forall e | e in journalEntries :: e.journal == this
    }

    /** `journalEntries.contains(x)`: some element `equals` it. */
    predicate ContainsEqual(x: JournalEntry)
      reads this, journalEntries, x
    {
      exists e | e in journalEntries :: e.Equals(x)
    }

    /**
     * `addEntry(newEntry)` on day `today`: rejects a null entry, an entry not dated today
     * and any entry while one for today exists, changing nothing; otherwise binds the entry
     * to this journal unless it is already bound, and adds it to the set (a no-op for
     * `HashSet.add` when an equal entry is present).
     */
    method AddEntry(newEntry: JournalEntry?, today: Date) returns (r: Outcome<Error>)
      modifies this`journalEntries, newEntry
      ensures r == if newEntry == null then Fail(NullEntry)
                   else if newEntry.date != today then Fail(EntryNotFromToday)
                   else if old(HasEntryForToday(today)) then Fail(EntryAlreadyExists(newEntry.date))
                   else Pass
      ensures r.Fail? ==> journalEntries == old(journalEntries) && (newEntry != null ==> unchanged(newEntry))
      ensures r.Pass? ==> journalEntries == if old(ContainsEqual(newEntry)) then old(journalEntries)
                                           else old(journalEntries) + {newEntry}
      ensures newEntry != null ==> newEntry.journal == if r.Pass? && old(newEntry.journal) == null then this
                                                      else old(newEntry.journal)
      ensures newEntry != null ==> newEntry.journalEntryId == old(newEntry.journalEntryId)
                                   && newEntry.Content() == old(newEntry.Content())
      ensures old(OnePerDate()) ==> OnePerDate()
      ensures r.Pass? ==> newEntry in journalEntries || old(ContainsEqual(newEntry))
    {
      if newEntry == null {
        return Fail(NullEntry);
      }
      if today != newEntry.date {
        return Fail(EntryNotFromToday);
      }
      if HasEntryForToday(today) {
        return Fail(EntryAlreadyExists(newEntry.date));
      }
      newEntry.SetJournal(this);
      if !ContainsEqual(newEntry) {
        journalEntries := journalEntries + {newEntry};
      }
      return Pass;
    }

    /** `equals`: identity, or two journals with the same (possibly null) id. */
    function Equals(o: Journal?): (r: bool)
      reads this, o
      ensures r <==> o != null && journalId == o.journalId
    {
      if this == o then true
      else if o == null then false
      else journalId == o.journalId
    }

    /**
     * `hashCode`: `Objects.hash(journalId)`, which is `31 + Long.hashCode(id)` in 32-bit
     * arithmetic, and 31 for an unsaved journal.
     */
    function HashCode(): (h: int)
      reads this
      ensures JavaHash.IsInt32(h) && JavaHash.SameInt32(h, 31 + JavaHash.NullableLongHash(journalId))
      ensures journalId == None ==> h == 31
    {
      JavaHash.ObjectsHashPolynomial(JavaHash.NullableLongHash(journalId), 0, 0, 0);
      JavaHash.ObjectsHash([JavaHash.NullableLongHash(journalId)])
    }
  }

  /** Equal journals hash equally, because both depend on the id alone. */
  lemma JournalEqualsImpliesSameHash(a: Journal, b: Journal)
    requires a.Equals(b)
    ensures a.HashCode() == b.HashCode()
  {
  }
}
