# User store and user service — a Dafny model

This project models the core of a small user-management back end (Java,
Spring): the in-memory user store `UserRepository` and the business layer
`UserServiceImpl` on top of it, together with the `User` entity and the two
input records `UserDTO` and `UserPartialUpdateDTO`.

- `wrappers.dfy` — `Option`, the stand-in for Java's `null` and `Optional`.
- `entities.dfy` (module `Entities`) — `User` as a value with one
  "with-field" function per setter.
- `dtos.dfy` (module `Dtos`) — the two input records, with `null` fields as
  `None`, and their Bean Validation rules (`@NotBlank`, `@NotNull`, `@Min(1)`,
  `@Size(min = 1)`) as predicates.
- `repository.dfy` (module `Repository`) — class `UserRepository`: a
  `map<int, User>` and the `nextId` counter, with the invariant that every key
  is the id of the user stored under it, every key is an id the counter
  handed out, and every id handed out is below the counter. A ghost set
  `issued` records every id ever handed out, deleted ones included, so that
  "ids are never reused" can be stated.
- `service.dfy` (module `Service`) — class `UserService` holding the store.
  Thrown exceptions become `Result.Err` with `NotFound(id)`,
  `EmailExists(email)` or `RetrievalError`. The email-collision scan is the
  recursive function `AnyEmailMatch` over the list `FindAllUsers` returns.
  Every mutating operation keeps emails unique when they were unique before.
- `scenarios.dfy` (module `Scenarios`) — client sessions proved from the
  contracts alone: create / duplicate create / lookup / delete / lookup, an
  id that is not handed out again after deletion, the empty listing, and the
  update rules below.

Behaviour the model reproduces as the code has it:

- `updateUser` and `updatePartialUser` scan all stored users, the target
  included, so updating a user to its own current email gives EmailExists.
- The scan runs before the existence check, so a missing id with a taken
  email gives EmailExists, not NotFound.
- In `updatePartialUser` an absent email never collides (`equals(null)` is
  false).
- `getAllUsers` fails with the retrieval error on an empty store
  (UserServiceImpl.java:44, documented at :39). The unit test
  `When_GettingAllUsers_When_NoUsersExist_Expect_EmptyList`
  (UserServiceImplTest.java:47-52) expects an empty list instead; the model
  follows the code (`Scenarios.EmptyListing`).
- The unit tests call `partialUpdateUser`; the implemented method is
  `updatePartialUser` (UserServiceImpl.java:111), which is what is modelled.
- The class comment of `UserPartialUpdateDTO` (UserPartialUpdateDTO.java:14)
  asks for a name of at least 2 characters; the annotation at :21 enforces
  `@Size(min = 1)`, which is what is modelled.
- `findAllUsers` copies a `HashMap`'s values, so the order of the list is not
  promised.
- `UserInputPort.java:27` documents a null result from `getUserById`; the
  implementation throws UserNotFoundException, which is what is modelled.

## Model

| member | source | states |
|---|---|---|
| Entities.User.WithId | src/main/java/itau/case_backend/domain/entities/User.java:50-52 | setId: the id becomes the given one; name, email and age are unchanged |
| Entities.User.WithName | src/main/java/itau/case_backend/domain/entities/User.java:68-70 | setName: the name becomes the given one; id, email and age are unchanged |
| Entities.User.WithEmail | src/main/java/itau/case_backend/domain/entities/User.java:86-88 | setEmail: the email becomes the given one; id, name and age are unchanged |
| Entities.User.WithAge | src/main/java/itau/case_backend/domain/entities/User.java:104-106 | setAge: the age becomes the given one; id, name and email are unchanged |
| Dtos.NotBlank | src/main/java/itau/case_backend/domain/dtos/UserDTO.java:27 | @NotBlank: passes exactly when the value is present and some character is left after trimming |
| Dtos.SizeAtLeastOne | src/main/java/itau/case_backend/domain/dtos/UserPartialUpdateDTO.java:21 | @Size(min = 1): null passes; the empty string is the only value rejected |
| Dtos.MinOne | src/main/java/itau/case_backend/domain/dtos/UserPartialUpdateDTO.java:28 | @Min(1): null passes; exactly the present values below 1 are rejected |
| Dtos.UserDto.Valid | src/main/java/itau/case_backend/domain/dtos/UserDTO.java:27-38 | a full input is valid exactly when no field is null, name and email are not blank, and the age is at least 1 |
| Dtos.UserPartialUpdateDto.Valid | src/main/java/itau/case_backend/domain/dtos/UserPartialUpdateDTO.java:21-29 | a partial input is valid exactly when neither name nor email is the empty string and the age, if present, is at least 1 |
| Dtos.UserDto.ToEntity | src/main/java/itau/case_backend/domain/dtos/UserDTO.java:119-121 | toEntity yields an unnumbered user (id 0) carrying the DTO's name, email and age unchanged |
| Dtos.NotBlankIsNonEmpty | src/main/java/itau/case_backend/domain/dtos/UserDTO.java:27 | a value passing @NotBlank is present and has at least one character |
| Dtos.ValidDtoEntity | src/main/java/itau/case_backend/domain/dtos/UserDTO.java:27-38 | a valid DTO has every field present, and its entity has id 0, a non-blank name and email, and an age of at least 1 |
| Dtos.ValidDtoIsValidPartial | src/main/java/itau/case_backend/domain/dtos/UserPartialUpdateDTO.java:21-29 | the partial-update rules are weaker: a valid full DTO read as a partial one is valid |
| Dtos.AllAbsentIsValid | src/main/java/itau/case_backend/domain/dtos/UserPartialUpdateDTO.java:21-29 | every partial field is optional: the all-absent partial DTO is valid |
| Dtos.BlankNameOnlyInPartial | src/main/java/itau/case_backend/domain/dtos/UserPartialUpdateDTO.java:21-28 | every whitespace-only name passes @Size(min = 1) but fails @NotBlank whatever the other fields; every present age below 1 fails @Min(1) in both records |
| Repository.UserRepository.constructor | src/main/java/itau/case_backend/adapters/output/UserRepository.java:15-16 | a fresh store is empty, valid, and its counter is 1, so the first unnumbered user gets id 1 |
| Repository.UserRepository.FindAllUsers | src/main/java/itau/case_backend/adapters/output/UserRepository.java:24-26 | the list holds exactly the stored users, each once: same length as the map, membership both ways, no duplicates |
| Repository.UserRepository.FindUserById | src/main/java/itau/case_backend/adapters/output/UserRepository.java:35-37 | absent exactly when the id is not a key; otherwise the stored user, whose own id is the one asked for |
| Repository.UserRepository.FindUserByEmail | src/main/java/itau/case_backend/adapters/output/UserRepository.java:45-49 | some stored user with that email if one exists, absent only when no stored user has it |
| Repository.UserRepository.SaveUser | src/main/java/itau/case_backend/adapters/output/UserRepository.java:59-65 | id 0: gets the counter's value, never handed out before and not a key, and the counter advances by one; other ids are kept with the counter unchanged; the user is upserted under its id, everything else unchanged, and found again by id; the store invariant is kept |
| Repository.UserRepository.DeleteUserById | src/main/java/itau/case_backend/adapters/output/UserRepository.java:73-75 | removes only that key (size drops by one); an absent id leaves the store and its size as they were; the counter and the handed-out ids are unchanged |
| Service.AnyEmailMatch | src/main/java/itau/case_backend/domain/UserServiceImpl.java:69-70 | the anyMatch scan is true exactly when some listed user has the given email; an absent email matches nobody |
| Service.ScanAgreesWithStore | src/main/java/itau/case_backend/domain/UserServiceImpl.java:69-70 | scanning the list findAllUsers returns finds a match exactly when a stored user has the email |
| Service.PutKeepsEmailsUnique | src/main/java/itau/case_backend/domain/UserServiceImpl.java:87-97 | storing a user whose email is stored nowhere, or is the target's own, keeps emails unique |
| Service.UserService.constructor | src/main/java/itau/case_backend/domain/UserServiceImpl.java:31-33 | the service works on the store it is given |
| Service.UserService.GetAllUsers | src/main/java/itau/case_backend/domain/UserServiceImpl.java:42-46 | fails with the retrieval error exactly when the store is empty; otherwise returns every stored user, each once, as many as there are |
| Service.UserService.GetUserById | src/main/java/itau/case_backend/domain/UserServiceImpl.java:56-58 | the stored user under the id (with that id), or NotFound(id) exactly when the id is absent; reads only |
| Service.UserService.CreateUser | src/main/java/itau/case_backend/domain/UserServiceImpl.java:68-74 | EmailExists(email) exactly when a stored user has the email, store untouched; otherwise the DTO's fields are stored under a fresh positive id never handed out before, other users unchanged; email uniqueness is kept |
| Service.UserService.UpdateUser | src/main/java/itau/case_backend/domain/UserServiceImpl.java:86-99 | EmailExists when any stored user, the target included, has the email, even for a missing id; else NotFound(id) for a missing id; both leave the store untouched; otherwise name, email and age are overwritten, the id kept, every other user and the counter unchanged; email uniqueness is kept |
| Service.UserService.UpdatePartialUser | src/main/java/itau/case_backend/domain/UserServiceImpl.java:111-124 | same error order; an absent email never collides; on success each present field replaces the stored one and each absent field keeps it, the id kept, every other user and the counter unchanged; email uniqueness is kept |
| Service.UserService.DeleteUser | src/main/java/itau/case_backend/domain/UserServiceImpl.java:133-138 | NotFound(id) exactly when the id is absent, store untouched; otherwise exactly that id is removed and the counter is not rolled back; email uniqueness is kept |

## Left out

- The HTTP layer (UserAdapterIn.java, CustomExceptionHandler.java, ApiErrorMessage.java) is not part of this model: routing, status codes and error bodies.
- The port interfaces (UserInputPort.java, UserOutputPort.java) hold signatures only.
- The exception classes are represented by the error variants only; their message texts are not modelled.
- The `@Email` format rule is left out: its pattern belongs to the validation library, which is not part of this model.
- `@NotBlank` is modelled as "some character above U+0020", the characters `String.trim()` removes; other Unicode whitespace is not treated as blank.
- The constructors, getters and setters of `UserDTO` and `UserPartialUpdateDTO`, and the constructor and getters of `User`, are the datatypes' constructors and field selectors; they have no members of their own.
- The Java update methods mutate the stored `User` object in place before calling `saveUser`; the model uses values, which give the same result because the save follows at once. Aliasing between callers holding the same object is not modelled.
- Concurrency: the map is unsynchronized in a singleton; the model is sequential.
- The `long` counter cannot overflow in the model: ids are unbounded integers.
- Iteration order of the `HashMap`: `FindAllUsers` and `FindUserByEmail` promise no order, so the order the repository test at UserRepositoryTest.java:32-33 relies on is not modelled.
- Repository.UserRepository.SaveUser: requires the id to be 0 or an id the store handed out; the Java store also accepts other ids, which could later collide with the counter.
- The store invariant states that handed-out ids lie below the counter, not that every id below the counter was handed out.
- Dtos.UserDto.ToEntity: requires every field to be present, because `User` has no null fields; the Java `toEntity` copies null fields into the entity.
- Service.UserService.CreateUser: requires every DTO field to be present, as `ToEntity` does; the code would store a null name, email or age. A stored null email would make a later collision scan throw when it reaches that user before a match; this is not modelled.
- Service.UserService.UpdateUser: requires every DTO field to be present, for the same reason as CreateUser.
