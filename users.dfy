/**
 * `User` as the two later iterations define it: an immutable user name, a mutable first
 * and last name that are validated on every assignment, and exactly one journal.
 */
module Users {
  import opened Wrappers
  import opened Errors
  import opened Names
  import JavaHash
  import Journals

  /** `NewUserDTO`: the names a client sends to create a user. */
  datatype NewUserDTO = NewUserDTO(userName: Option<string>, firstName: Option<string>, lastName: Option<string>)

  /** `UpdateUserDTO`: the mutable names a client sends to update a user. */
  datatype UpdateUserDTO = UpdateUserDTO(firstName: Option<string>, lastName: Option<string>)

  /** `SimpleUserDTO` of the newest iteration has the same two fields. */
  type SimpleUserDTO = UpdateUserDTO

  /** `ReturnUserDTO`: what the API returns for a user. */
  datatype ReturnUserDTO = ReturnUserDTO(userId: Option<int>, userName: Option<string>, firstName: Option<string>, lastName: Option<string>)

  class User {
    /** Primary key; null until the user is first persisted. */
    var userId: Option<int>
    /** Unique and immutable: only the constructor's private setter assigns it. */
    const userName: Option<string>
    var firstName: Option<string>
    var lastName: Option<string>
    /** The user's own journal; the reference never changes. */
    const journal: Journals.Journal

    /** Every user built through the validating constructor has three valid names. */
    predicate Valid()
      reads this
    {
      ValidateAllNames(userName, firstName, lastName)
    }

    /** The protected no-argument constructor used by JPA: no names, but a fresh journal. */
    constructor Empty()
      ensures userId == None && userName == None && firstName == None && lastName == None
      ensures fresh(journal) && journal.journalEntries == {} && journal.journalId == None
    {
      userId, userName, firstName, lastName := None, None, None, None;
      journal := new Journals.Journal();
    }

    /**
     * The assignments of `User(userName, firstName, lastName)`, reached once the three
     * validating setters have passed; see `Create` for the constructor as a whole.
     */
    constructor (userName: Option<string>, firstName: Option<string>, lastName: Option<string>)
      requires ValidateAllNames(userName, firstName, lastName)
      ensures Valid() && userId == None
      ensures this.userName == userName && this.firstName == firstName && this.lastName == lastName
      ensures fresh(journal) && journal.journalEntries == {} && journal.journalId == None
    {
      userId := None;
      this.userName := userName;
      this.firstName := firstName;
      this.lastName := lastName;
      journal := new Journals.Journal();
    }

    /**
     * `new User(userName, firstName, lastName)`: the setters validate the user name, the
     * first name and the last name in that order and the first invalid one is thrown as
     * `NameInvalidException`; otherwise the user holds the three names and a new, empty journal.
     */
    static method Create(userName: Option<string>, firstName: Option<string>, lastName: Option<string>)
      returns (r: Result<User, Error>)
      ensures r.Failure? <==> !ValidateAllNames(userName, firstName, lastName)
      ensures r.Failure? ==> r.error == NameInvalid(FirstInvalidName(userName, firstName, lastName).value)
      ensures r.Success? ==> fresh(r.value) && fresh(r.value.journal) && r.value.Valid()
      ensures r.Success? ==> r.value.userId == None && r.value.userName == userName
                             && r.value.firstName == firstName && r.value.lastName == lastName
      ensures r.Success? ==> r.value.journal.journalEntries == {} && r.value.journal.journalId == None
    {
      FirstInvalidNameIsNoneIffAllValid(userName, firstName, lastName);
      var invalid := FirstInvalidName(userName, firstName, lastName);
      if invalid.Some? {
        return Failure(NameInvalid(invalid.value));
      }
      var u := new User(userName, firstName, lastName);
      return Success(u);
    }

    /** `setFirstName`: an invalid name throws and changes nothing; a valid one replaces the first name only. */
    method SetFirstName(firstName: Option<string>) returns (r: Outcome<Error>)
      modifies this`firstName
      ensures r == if ValidateName(firstName) then Pass else Fail(NameInvalid(firstName))
      ensures this.firstName == if r.Pass? then firstName else old(this.firstName)
      ensures old(Valid()) ==> Valid()
    {
      if !ValidateName(firstName) {
        return Fail(NameInvalid(firstName));
      }
      this.firstName := firstName;
      return Pass;
    }

    /** `setLastName`: an invalid name throws and changes nothing; a valid one replaces the last name only. */
    method SetLastName(lastName: Option<string>) returns (r: Outcome<Error>)
      modifies this`lastName
      ensures r == if ValidateName(lastName) then Pass else Fail(NameInvalid(lastName))
      ensures this.lastName == if r.Pass? then lastName else old(this.lastName)
      ensures old(Valid()) ==> Valid()
    {
      if !ValidateName(lastName) {
        return Fail(NameInvalid(lastName));
      }
      this.lastName := lastName;
      return Pass;
    }

    /** `toReturnUserDTO`: the id and the three names, and nothing of the journal. */
    function ToReturnUserDTO(): (d: ReturnUserDTO)
      reads this
      ensures d.userId == userId && d.userName == userName
      ensures d.firstName == firstName && d.lastName == lastName
    {
      ReturnUserDTO(userId, userName, firstName, lastName)
    }

    /** `equals`: identity, or equal id and equal names; the journal is not compared. */
    function Equals(o: User?): (r: bool)
      reads this, o
      ensures r <==> o != null && ToReturnUserDTO() == o.ToReturnUserDTO()
    {
      if this == o then true
      else if o == null then false
      else userId == o.userId && userName == o.userName && firstName == o.firstName && lastName == o.lastName
    }

    /**
     * `hashCode`: `Objects.hash(userId, userName)`, a subset of the fields `equals` compares;
     * in 32-bit arithmetic it is `961 + 31 * Long.hashCode(userId) + userName.hashCode()`.
     */
    function HashCode(): (h: int)
      reads this
      ensures JavaHash.IsInt32(h)
      ensures JavaHash.SameInt32(h, 961 + 31 * JavaHash.NullableLongHash(userId) + JavaHash.NullableStringHash(userName))
    {
      JavaHash.ObjectsHashPolynomial(JavaHash.NullableLongHash(userId), JavaHash.NullableStringHash(userName), 0, 0);
      JavaHash.ObjectsHash([JavaHash.NullableLongHash(userId), JavaHash.NullableStringHash(userName)])
    }
  }

  /** Equal users hash equally. */
  lemma UserEqualsImpliesSameHash(a: User, b: User)
    requires a.Equals(b)
    ensures a.HashCode() == b.HashCode()
  {
  }

  /** Two users with the same id and user name hash equally even when their first or last names differ. */
  lemma HashIgnoresMutableNames(a: User, b: User)
    requires a.userId == b.userId && a.userName == b.userName
    ensures a.HashCode() == b.HashCode()
  {
  }
}
