/**
 * `User` of the first iteration: the same name rule and validating setters, but no
 * journal, an unvalidated no-argument constructor, and a hash code over all four fields.
 */
module EarlyUsers {
  import opened Wrappers
  import opened Errors
  import opened Names
  import JavaHash

  class User {
    var userId: Option<int>
    /** Immutable: only the constructor's private setter assigns it. */
    const userName: Option<string>
    var firstName: Option<string>
    var lastName: Option<string>

    predicate Valid()
      reads this
    {
      ValidateAllNames(userName, firstName, lastName)
    }

    /** `User()`: no validation at all, so every name is null and the user is not `Valid`. */
    constructor Empty()
      ensures userId == None && userName == None && firstName == None && lastName == None
      ensures !Valid()
    {
      userId, userName, firstName, lastName := None, None, None, None;
    }

    /** The assignments of `User(userName, firstName, lastName)` once the setters have passed. */
    constructor (userName: Option<string>, firstName: Option<string>, lastName: Option<string>)
      requires ValidateAllNames(userName, firstName, lastName)
      ensures Valid() && userId == None
      ensures this.userName == userName && this.firstName == firstName && this.lastName == lastName
    {
      userId := None;
      this.userName := userName;
      this.firstName := firstName;
      this.lastName := lastName;
    }

    /** `new User(userName, firstName, lastName)`: the first invalid name, in argument order, is thrown. */
    static method Create(userName: Option<string>, firstName: Option<string>, lastName: Option<string>)
      returns (r: Result<User, Error>)
      ensures r.Failure? <==> !ValidateAllNames(userName, firstName, lastName)
      ensures r.Failure? ==> r.error == NameInvalid(FirstInvalidName(userName, firstName, lastName).value)
      ensures r.Success? ==> fresh(r.value) && r.value.Valid() && r.value.userId == None
      ensures r.Success? ==> r.value.userName == userName && r.value.firstName == firstName
                             && r.value.lastName == lastName
    {
      FirstInvalidNameIsNoneIffAllValid(userName, firstName, lastName);
      var invalid := FirstInvalidName(userName, firstName, lastName);
      if invalid.Some? {
        return Failure(NameInvalid(invalid.value));
      }
      var u := new User(userName, firstName, lastName);
      return Success(u);
    }

    method SetFirstName(firstName: Option<string>) returns (r: Outcome<Error>)
      modifies this`firstName
      ensures r == if ValidateName(firstName) then Pass else Fail(NameInvalid(firstName))
      ensures this.firstName == if r.Pass? then firstName else old(this.firstName)
    {
      if !ValidateName(firstName) {
        return Fail(NameInvalid(firstName));
      }
      this.firstName := firstName;
      return Pass;
    }

    method SetLastName(lastName: Option<string>) returns (r: Outcome<Error>)
      modifies this`lastName
      ensures r == if ValidateName(lastName) then Pass else Fail(NameInvalid(lastName))
      ensures this.lastName == if r.Pass? then lastName else old(this.lastName)
    {
      if !ValidateName(lastName) {
        return Fail(NameInvalid(lastName));
      }
      this.lastName := lastName;
      return Pass;
    }

    /** `equals`: identity, or all four fields equal. */
    function Equals(o: User?): (r: bool)
      reads this, o
      ensures r <==> o != null && userId == o.userId && userName == o.userName
                     && firstName == o.firstName && lastName == o.lastName
    {
      if this == o then true
      else if o == null then false
      else userId == o.userId && userName == o.userName && firstName == o.firstName && lastName == o.lastName
    }

    /**
     * `hashCode`: `Objects.hash` over the same four fields that `equals` compares, which in
     * 32-bit arithmetic is `31^4 + 31^3 * h(userId) + 31^2 * h(userName) + 31 * h(firstName) + h(lastName)`.
     */
    function HashCode(): (h: int)
      reads this
      ensures JavaHash.IsInt32(h)
      ensures JavaHash.SameInt32(h, 923521 + 29791 * JavaHash.NullableLongHash(userId)
                                    + 961 * JavaHash.NullableStringHash(userName)
                                    + 31 * JavaHash.NullableStringHash(firstName) + JavaHash.NullableStringHash(lastName))
    {
      JavaHash.ObjectsHashPolynomial(JavaHash.NullableLongHash(userId), JavaHash.NullableStringHash(userName),
                                     JavaHash.NullableStringHash(firstName), JavaHash.NullableStringHash(lastName));
      JavaHash.ObjectsHash([JavaHash.NullableLongHash(userId), JavaHash.NullableStringHash(userName),
                            JavaHash.NullableStringHash(firstName), JavaHash.NullableStringHash(lastName)])
    }
  }

  /** Equal users hash equally. */
  lemma EarlyUserEqualsImpliesSameHash(a: User, b: User)
    requires a.Equals(b)
    ensures a.HashCode() == b.HashCode()
  {
  }
}
