/**
 * The user entity (domain/entities/User.java).
 *
 * The Java class is a mutable object with one setter per field; here it is a
 * value, and each setter is a function returning the updated value. The
 * service always saves a mutated user straight back into the store, so value
 * semantics give the same observable result.
 */
module Entities {

  /** A user record. `id == 0` marks a user the store has not numbered yet. */
  datatype User = User(id: int, name: string, email: string, age: int) {

    /** setId: replaces the id and nothing else. */
    function WithId(newId: int): (r: User)
      ensures r.id == newId
      ensures r.name == name && r.email == email && r.age == age
    {
      this.(id := newId)
    }

    /** setName: replaces the name and nothing else. */
    function WithName(newName: string): (r: User)
      ensures r.name == newName
      ensures r.id == id && r.email == email && r.age == age
    {
      this.(name := newName)
    }

    /** setEmail: replaces the email and nothing else. */
    function WithEmail(newEmail: string): (r: User)
      ensures r.email == newEmail
      ensures r.id == id && r.name == name && r.age == age
    {
      this.(email := newEmail)
    }

    /** setAge: replaces the age and nothing else. */
    function WithAge(newAge: int): (r: User)
      ensures r.age == newAge
      ensures r.id == id && r.name == name && r.email == email
    {
      this.(age := newAge)
    }
  }
}
