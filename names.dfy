/**
 * The name rule shared by every iteration of `User`: a user name, first name or last
 * name is valid when it is non-null, at least two characters long and free of spaces.
 */
module Names {
  import opened Wrappers

  /** True when `s` has no space character at any position. */
  predicate SpaceFree(s: string) {
    forall i :: 0 <= i < |s| ==> s[i] != ' '
  }

  /** `User.validateName`: the three guards in the order the source checks them. */
  function ValidateName(name: Option<string>): (valid: bool)
    ensures valid <==> name.Some? && |name.value| >= 2 && SpaceFree(name.value)
  {
    if name.None? then false
    else if |name.value| < 2 then false
    else if ' ' in name.value then false
    else true
  }

  /** `User.validateAllNames`: the three `validateName` calls joined by `&&`. */
  function ValidateAllNames(userName: Option<string>, firstName: Option<string>, lastName: Option<string>): (valid: bool)
    ensures valid <==> forall name | name in [userName, firstName, lastName] :: ValidateName(name)
    ensures valid ==> userName.Some? && firstName.Some? && lastName.Some?
  {
    ValidateName(userName) && ValidateName(firstName) && ValidateName(lastName)
  }

  /**
   * The name a service reports in `NameInvalidException` when it validates the user
   * name, the first name and the last name one after the other: the first invalid one,
   * or `None` when all three pass.
   */
  function FirstInvalidName(userName: Option<string>, firstName: Option<string>, lastName: Option<string>): (r: Option<Option<string>>)
    ensures r.Some? ==> !ValidateName(r.value)
    ensures r.Some? ==> r.value == userName || r.value == firstName || r.value == lastName
  {
    if !ValidateName(userName) then Some(userName)
    else if !ValidateName(firstName) then Some(firstName)
    else if !ValidateName(lastName) then Some(lastName)
    else None
  }

  /**
   * Validating the names one at a time succeeds exactly when `validateAllNames` holds, and
   * otherwise reports the first invalid name in the order user name, first name, last name.
   */
  lemma FirstInvalidNameIsNoneIffAllValid(userName: Option<string>, firstName: Option<string>, lastName: Option<string>)
    ensures FirstInvalidName(userName, firstName, lastName).None? <==> ValidateAllNames(userName, firstName, lastName)
    ensures !ValidateName(userName) ==> FirstInvalidName(userName, firstName, lastName) == Some(userName)
    ensures ValidateName(userName) && !ValidateName(firstName) ==> FirstInvalidName(userName, firstName, lastName) == Some(firstName)
    ensures ValidateName(userName) && ValidateName(firstName) && !ValidateName(lastName)
            ==> FirstInvalidName(userName, firstName, lastName) == Some(lastName)
  {
  }

  /** Rejected: null, the names the user tests send ("", "t", "I"), and a name with a space. */
  lemma RejectedNames()
    ensures !ValidateName(None)
    ensures !ValidateName(Some(""))
    ensures !ValidateName(Some("t")) && !ValidateName(Some("I"))
    ensures !ValidateName(Some("first name"))
  {
    assert "first name"[5] == ' ';
  }

  /** Two characters without a space are already enough. */
  lemma AcceptedNames()
    ensures ValidateName(Some("Al"))
    ensures ValidateName(Some("test1UserName"))
  {
  }
}
