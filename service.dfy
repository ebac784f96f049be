/**
 * The business rules on top of the store (domain/UserServiceImpl.java):
 * an email-collision scan before create, update and partial update, and an
 * existence check before get, update, partial update and delete. The Java
 * exceptions become the error side of `Result`.
 */
module Service {
  import opened Wrappers
  import opened Entities
  import opened Dtos
  import opened Repository

  /** UserNotFoundException, EmailAlreadyExistsException and UsersRetrievalException. */
  datatype ServiceError = NotFound(id: int) | EmailExists(email: string) | RetrievalError

  datatype Result<T> = Ok(value: T) | Err(error: ServiceError)

  /**
   * The collision scan `anyMatch(u -> u.getEmail().equals(email))`: stored
   * emails are never null, and `equals(null)` is false, so an absent email
   * matches nobody.
   */
  function AnyEmailMatch(users: seq<User>, email: Option<string>): (b: bool)
    ensures b <==> exists i :: 0 <= i < |users| && Some(users[i].email) == email
  {
    if users == [] then false
    else if Some(users[0].email) == email then true
    else AnyEmailMatch(users[1..], email)
  }

  /** Some stored user has this email. */
  ghost predicate EmailStored(m: map<int, User>, email: Option<string>)
  {
    exists k :: k in m && Some(m[k].email) == email
  }

  /** No two stored users share an email. */
  ghost predicate UniqueEmails(m: map<int, User>)
  {
    forall j, k :: j in m && k in m && m[j].email == m[k].email ==> j == k
  }

  /** Scanning a list that holds exactly the stored users finds a match exactly when one is stored. */
  lemma ScanAgreesWithStore(users: seq<User>, m: map<int, User>, email: Option<string>)
    requires forall u :: u in users <==> u in m.Values
    ensures AnyEmailMatch(users, email) <==> EmailStored(m, email)
  {
    if AnyEmailMatch(users, email) {
      var i :| 0 <= i < |users| && Some(users[i].email) == email;
      assert users[i] in m.Values;
      ValueHasKey(m, users[i]);
      var k :| k in m && m[k] == users[i];
      assert k in m && Some(m[k].email) == email;
    }
    if EmailStored(m, email) {
      var k :| k in m && Some(m[k].email) == email;
      assert m[k] in m.Values;
      assert m[k] in users;
      var i :| 0 <= i < |users| && users[i] == m[k];
      assert Some(users[i].email) == email;
    }
  }

  /**
   * Storing `u` under `k` keeps emails unique when `u`'s email is stored
   * nowhere, or is already the email of the user under `k`.
   */
  lemma PutKeepsEmailsUnique(m: map<int, User>, k: int, u: User)
    requires UniqueEmails(m)
    requires !EmailStored(m, Some(u.email)) || (k in m && m[k].email == u.email)
    ensures UniqueEmails(m[k := u])
  {
  }

  class UserService {
    const repository: UserRepository

    ghost predicate Valid()
      reads this, repository
    {
      repository.Valid()
    }

    constructor (repository: UserRepository)
      ensures this.repository == repository
    {
      this.repository := repository;
    }

    /** getAllUsers: every stored user, or the retrieval error when the store is empty. */
    method GetAllUsers() returns (r: Result<seq<User>>)
      requires Valid()
      ensures r.Err? <==> repository.userMap == map[]
      ensures r.Err? ==> r.error == RetrievalError
      ensures r.Ok? ==> |r.value| == |repository.userMap|
      ensures r.Ok? ==> forall u :: u in r.value <==> u in repository.userMap.Values
      ensures r.Ok? ==> forall i, j :: 0 <= i < j < |r.value| ==> r.value[i] != r.value[j]
    {
      var users := repository.FindAllUsers();
      if |users| == 0 {
        r := Err(RetrievalError);
      } else {
        r := Ok(users);
      }
    }

    /** getUserById: the user stored under `id`, or NotFound(id). */
    function GetUserById(id: int): (r: Result<User>)
      reads this, repository
      requires Valid()
      ensures r.Ok? <==> id in repository.userMap
      ensures r.Ok? ==> r.value == repository.userMap[id] && r.value.id == id
      ensures r.Err? ==> r.error == NotFound(id)
    {
      match repository.FindUserById(id)
      case Some(u) => Ok(u)
      case None => Err(NotFound(id))
    }

    /**
     * createUser: EmailExists when the email is taken, the store untouched;
     * otherwise the DTO's fields are stored under a fresh id.
     */
    method CreateUser(dto: UserDto) returns (r: Result<User>)
      requires Valid()
      requires dto.Complete()
      modifies repository
      ensures Valid()
      ensures r.Err? <==> EmailStored(old(repository.userMap), dto.email)
      ensures r.Err? ==> r.error == EmailExists(dto.email.value) && unchanged(repository)
      ensures r.Ok? ==>
        && r.value == dto.ToEntity().WithId(old(repository.nextId))
        && r.value.id > 0
        && r.value.id !in old(repository.issued)
        && r.value.id !in old(repository.userMap)
        && repository.userMap == old(repository.userMap)[r.value.id := r.value]
        && repository.nextId == old(repository.nextId) + 1
        && repository.issued == old(repository.issued) + {r.value.id}
      ensures UniqueEmails(old(repository.userMap)) ==> UniqueEmails(repository.userMap)
    {
      var all := repository.FindAllUsers();
      ScanAgreesWithStore(all, repository.userMap, dto.email);
      if AnyEmailMatch(all, dto.email) {
        r := Err(EmailExists(dto.email.value));
        return;
      }
      var entity := dto.ToEntity();
      if UniqueEmails(repository.userMap) {
        PutKeepsEmailsUnique(repository.userMap, repository.nextId, entity.WithId(repository.nextId));
      }
      var saved := repository.SaveUser(entity);
      r := Ok(saved);
    }

    /**
     * updateUser: the scan comes first and does not skip the target, so a
     * taken email, the target's own included, gives EmailExists even for a
     * missing id; then a missing id gives NotFound; otherwise name, email
     * and age are overwritten, the id kept.
     */
    method UpdateUser(id: int, dto: UserDto) returns (r: Result<User>)
      requires Valid()
      requires dto.Complete()
      modifies repository
      ensures Valid()
      ensures r.Ok? <==> !EmailStored(old(repository.userMap), dto.email) && id in old(repository.userMap)
      ensures EmailStored(old(repository.userMap), dto.email) ==> r == Err(EmailExists(dto.email.value))
      ensures !EmailStored(old(repository.userMap), dto.email) && id !in old(repository.userMap) ==> r == Err(NotFound(id))
      ensures r.Err? ==> unchanged(repository)
      ensures r.Ok? ==>
        && r.value.id == id
        && Some(r.value.name) == dto.name && Some(r.value.email) == dto.email && Some(r.value.age) == dto.age
        && repository.userMap == old(repository.userMap)[id := r.value]
        && repository.nextId == old(repository.nextId)
        && repository.issued == old(repository.issued)
      ensures UniqueEmails(old(repository.userMap)) ==> UniqueEmails(repository.userMap)
    {
      var all := repository.FindAllUsers();
      ScanAgreesWithStore(all, repository.userMap, dto.email);
      if AnyEmailMatch(all, dto.email) {
        r := Err(EmailExists(dto.email.value));
        return;
      }
      match repository.FindUserById(id) {
        case None =>
          r := Err(NotFound(id));
        case Some(user) =>
          var updated := user.WithName(dto.name.value).WithEmail(dto.email.value).WithAge(dto.age.value);
          if UniqueEmails(repository.userMap) {
            PutKeepsEmailsUnique(repository.userMap, id, updated);
          }
          var saved := repository.SaveUser(updated);
          r := Ok(saved);
      }
    }

    /**
     * updatePartialUser: the same scan, on the DTO's email, which never
     * matches when absent; then NotFound for a missing id; otherwise only the
     * present fields are overwritten.
     */
    method UpdatePartialUser(id: int, dto: UserPartialUpdateDto) returns (r: Result<User>)
      requires Valid()
      modifies repository
      ensures Valid()
      ensures r.Ok? <==> !EmailStored(old(repository.userMap), dto.email) && id in old(repository.userMap)
      ensures dto.email.None? && id in old(repository.userMap) ==> r.Ok?
      ensures EmailStored(old(repository.userMap), dto.email) ==> dto.email.Some? && r == Err(EmailExists(dto.email.value))
      ensures !EmailStored(old(repository.userMap), dto.email) && id !in old(repository.userMap) ==> r == Err(NotFound(id))
      ensures r.Err? ==> unchanged(repository)
      ensures r.Ok? ==>
        && r.value.id == id
        && r.value.name == dto.name.GetOr(old(repository.userMap)[id].name)
        && r.value.email == dto.email.GetOr(old(repository.userMap)[id].email)
        && r.value.age == dto.age.GetOr(old(repository.userMap)[id].age)
        && repository.userMap == old(repository.userMap)[id := r.value]
        && repository.nextId == old(repository.nextId)
        && repository.issued == old(repository.issued)
      ensures UniqueEmails(old(repository.userMap)) ==> UniqueEmails(repository.userMap)
    {
      var all := repository.FindAllUsers();
      ScanAgreesWithStore(all, repository.userMap, dto.email);
      if AnyEmailMatch(all, dto.email) {
        r := Err(EmailExists(dto.email.value));
        return;
      }
      match repository.FindUserById(id) {
        case None =>
          r := Err(NotFound(id));
        case Some(user) =>
          var updated := user;
          if dto.name.Some? {
            updated := updated.WithName(dto.name.value);
          }
          if dto.email.Some? {
            updated := updated.WithEmail(dto.email.value);
          }
          if dto.age.Some? {
            updated := updated.WithAge(dto.age.value);
          }
          if UniqueEmails(repository.userMap) {
            PutKeepsEmailsUnique(repository.userMap, id, updated);
          }
          var saved := repository.SaveUser(updated);
          r := Ok(saved);
      }
    }

    /** deleteUser: NotFound(id) with the store untouched, or exactly `id` removed. */
    method DeleteUser(id: int) returns (r: Result<()>)
      requires Valid()
      modifies repository
      ensures Valid()
      ensures r.Err? <==> id !in old(repository.userMap)
      ensures r.Err? ==> r.error == NotFound(id) && unchanged(repository)
      ensures r.Ok? ==>
        && repository.userMap == old(repository.userMap) - {id}
        && |repository.userMap| == |old(repository.userMap)| - 1
        && repository.nextId == old(repository.nextId)
        && repository.issued == old(repository.issued)
      ensures UniqueEmails(old(repository.userMap)) ==> UniqueEmails(repository.userMap)
    {
      if repository.FindUserById(id).None? {
        r := Err(NotFound(id));
        return;
      }
      repository.DeleteUserById(id);
      r := Ok(());
    }
  }
}
