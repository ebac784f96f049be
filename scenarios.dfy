/**
 * Client sessions against the service, proved from the contracts alone:
 * the create / duplicate / lookup / delete walk-through, the empty listing,
 * and the update rules that the collision scan produces.
 */
module Scenarios {
  import opened Wrappers
  import opened Entities
  import opened Dtos
  import opened Repository
  import opened Service

  /** Create, a duplicate create, lookup, delete, lookup again; a deleted id is not handed out again. */
  method CreateLookupDelete()
  {
    var repository := new UserRepository();
    var service := new UserService(repository);

    var alice := service.CreateUser(UserDto(Some("Alice"), Some("alice@x.com"), Some(25)));
    assert alice == Ok(User(1, "Alice", "alice@x.com", 25));

    assert 1 in repository.userMap && Some(repository.userMap[1].email) == Some("alice@x.com");
    var bob := service.CreateUser(UserDto(Some("Bob"), Some("alice@x.com"), Some(30)));
    assert bob == Err(EmailExists("alice@x.com"));

    var found := service.GetUserById(1);
    assert found == Ok(User(1, "Alice", "alice@x.com", 25));

    var deleted := service.DeleteUser(1);
    assert deleted.Ok?;
    found := service.GetUserById(1);
    assert found == Err(NotFound(1));
    deleted := service.DeleteUser(1);
    assert deleted == Err(NotFound(1));

    var carol := service.CreateUser(UserDto(Some("Carol"), Some("carol@x.com"), Some(40)));
    assert carol == Ok(User(2, "Carol", "carol@x.com", 40));
  }

  /** Listing an empty store is an error, not an empty list. */
  method EmptyListing()
  {
    var repository := new UserRepository();
    var service := new UserService(repository);
    var all := service.GetAllUsers();
    assert all == Err(RetrievalError);

    var dave := service.CreateUser(UserDto(Some("Dave"), Some("dave@x.com"), Some(33)));
    all := service.GetAllUsers();
    assert all.Ok? && |all.value| == 1;
  }

  /**
   * A user cannot be updated to its own current email, a missing id with a
   * taken email is reported as EmailExists, and a partial update without an
   * email keeps the stored one.
   */
  method UpdateRules()
  {
    var repository := new UserRepository();
    var service := new UserService(repository);
    var alice := service.CreateUser(UserDto(Some("Alice"), Some("alice@x.com"), Some(25)));
    assert repository.userMap == map[1 := User(1, "Alice", "alice@x.com", 25)];

    assert 1 in repository.userMap && Some(repository.userMap[1].email) == Some("alice@x.com");
    var same := service.UpdateUser(1, UserDto(Some("Alice B"), Some("alice@x.com"), Some(26)));
    assert same == Err(EmailExists("alice@x.com"));

    var missing := service.UpdateUser(99, UserDto(Some("Zed"), Some("alice@x.com"), Some(50)));
    assert missing == Err(EmailExists("alice@x.com"));

    missing := service.UpdateUser(99, UserDto(Some("Zed"), Some("zed@x.com"), Some(50)));
    assert missing == Err(NotFound(99));

    var partial := service.UpdatePartialUser(1, UserPartialUpdateDto(Some("Alice Updated"), None, Some(26)));
    assert partial == Ok(User(1, "Alice Updated", "alice@x.com", 26));

    var full := service.UpdateUser(1, UserDto(Some("Alice"), Some("alice@y.com"), Some(27)));
    assert full == Ok(User(1, "Alice", "alice@y.com", 27));
  }
}
