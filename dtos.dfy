/**
 * The two input records of the service (domain/dtos/UserDTO.java and
 * domain/dtos/UserPartialUpdateDTO.java) and the validity rules their
 * Bean Validation annotations declare. A Java null field is `None`.
 */
module Dtos {
  import opened Wrappers
  import opened Entities

  /** A character String.trim() removes: every char up to and including space. */
  predicate IsTrimmed(c: char)
  {
    c <= ' '
  }

  /** A string with no character left after trimming. */
  predicate IsBlank(s: string)
  {
    forall i :: 0 <= i < |s| ==> IsTrimmed(s[i])
  }

  /** @NotBlank: present, and something is left after trimming. */
  predicate NotBlank(s: Option<string>): (b: bool)
    ensures b <==> s.Some? && exists i :: 0 <= i < |s.value| && !IsTrimmed(s.value[i])
  {
    s.Some? && !IsBlank(s.value)
  }

  /** @Size(min = 1): null passes; the empty string is the one value rejected. */
  predicate SizeAtLeastOne(s: Option<string>): (b: bool)
    ensures b <==> s != Some("")
  {
    s.Some? ==> |s.value| >= 1
  }

  /** @Min(1): null passes; a present value below 1 is rejected. */
  predicate MinOne(n: Option<int>): (b: bool)
    ensures b <==> !exists k :: k < 1 && n == Some(k)
  {
    n.Some? ==> n.value >= 1
  }

  /** Input of create and full update. */
  datatype UserDto = UserDto(name: Option<string>, email: Option<string>, age: Option<int>) {

    /** No field is null. */
    predicate Complete()
    {
      name.Some? && email.Some? && age.Some?
    }

    /** @NotBlank name, @NotBlank email, @NotNull @Min(1) age (the @Email format rule is not modelled). */
    predicate Valid(): (b: bool)
      ensures b <==> Complete() && !IsBlank(name.value) && !IsBlank(email.value) && age.value >= 1
    {
      NotBlank(name) && NotBlank(email) && age.Some? && MinOne(age)
    }

    /** toEntity: a user the store has not numbered yet, carrying the three fields unchanged. */
    function ToEntity(): (u: User)
      requires Complete()
      ensures u.id == 0
      ensures Some(u.name) == name && Some(u.email) == email && Some(u.age) == age
    {
      User(0, name.value, email.value, age.value)
    }
  }

  /** Input of partial update: every field optional. */
  datatype UserPartialUpdateDto = UserPartialUpdateDto(name: Option<string>, email: Option<string>, age: Option<int>) {

    /** @Size(min = 1) name, @Size(min = 1) email, @Min(1) age, each only when present. */
    predicate Valid(): (b: bool)
      ensures b <==> name != Some("") && email != Some("") && age.GetOr(1) >= 1
    {
      SizeAtLeastOne(name) && SizeAtLeastOne(email) && MinOne(age)
    }
  }

  /** A non-blank string has at least one character. */
  lemma NotBlankIsNonEmpty(s: Option<string>)
    requires NotBlank(s)
    ensures SizeAtLeastOne(s) && |s.value| >= 1
  {
  }

  /** A valid create/update input has every field, and its entity is unnumbered with a non-blank name and email and a positive age. */
  lemma ValidDtoEntity(d: UserDto)
    requires d.Valid()
    ensures d.Complete()
    ensures var u := d.ToEntity();
      u.id == 0 && !IsBlank(u.name) && !IsBlank(u.email) && u.age >= 1
  {
  }

  /** The partial rules are weaker than the full ones: a valid full input, read as a partial one, is valid. */
  lemma ValidDtoIsValidPartial(d: UserDto)
    requires d.Valid()
    ensures UserPartialUpdateDto(d.name, d.email, d.age).Valid()
  {
    NotBlankIsNonEmpty(d.name);
    NotBlankIsNonEmpty(d.email);
  }

  /** A partial input with every field absent is valid. */
  lemma AllAbsentIsValid()
    ensures UserPartialUpdateDto(None, None, None).Valid()
  {
  }

  /**
   * Every whitespace-only name passes @Size(min = 1) but no full input with
   * it passes @NotBlank; every age below 1 fails @Min(1) in both records,
   * whatever the other fields are.
   */
  lemma BlankNameOnlyInPartial(s: string, n: int)
    requires |s| >= 1 && IsBlank(s) && n < 1
    ensures UserPartialUpdateDto(Some(s), None, None).Valid()
    ensures forall e, a :: !UserDto(Some(s), e, a).Valid()
    ensures forall nm, e :: !UserPartialUpdateDto(nm, e, Some(n)).Valid() && !UserDto(nm, e, Some(n)).Valid()
  {
  }
}
