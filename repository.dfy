/**
 * The in-memory user store (adapters/output/UserRepository.java): a hash map
 * from id to user plus a counter that numbers new users.
 */
module Repository {
  import opened Wrappers
  import opened Entities

  /** A non-empty set of ids has an element. */
  lemma NonEmptyHasElement(s: set<int>)
    requires s != {}
    ensures exists k :: k in s
  {
    if forall k :: k !in s {
      assert false;
    }
  }

  /** A value of a map is stored under some key. */
  lemma ValueHasKey(m: map<int, User>, u: User)
    requires u in m.Values
    ensures exists k :: k in m && m[k] == u
  {
    if forall k :: k in m ==> m[k] != u {
      assert false;
    }
  }

  /** Every key of `m` is the id of the user stored under it. */
  ghost predicate KeyedById(m: map<int, User>)
  {
    forall k :: k in m ==> m[k].id == k
  }

  class UserRepository {
    /** The stored users, keyed by id. */
    var userMap: map<int, User>
    /** The id the next unnumbered user receives. */
    var nextId: int
    /** Every id the counter has handed out so far, deleted ones included. */
    ghost var issued: set<int>

    /**
     * The store's invariant: the counter is at least 1, every id handed out
     * lies in 1 .. nextId - 1, every key is an id handed out, and every key is
     * the id of the user stored under it.
     */
    ghost predicate Valid()
      reads this
    {
      && nextId >= 1
      && (forall k :: k in issued ==> 0 < k < nextId)
      && userMap.Keys <= issued
      && KeyedById(userMap)
    }

    /** A fresh store is empty and numbers its first user 1. */
    constructor ()
      ensures Valid()
      ensures userMap == map[] && nextId == 1 && issued == {}
    {
      userMap := map[];
      nextId := 1;
      issued := {};
    }

    /**
     * findAllUsers: a list holding each stored user exactly once. The order
     * is the hash map's and is left unspecified.
     */
    method FindAllUsers() returns (users: seq<User>)
      requires Valid()
      ensures |users| == |userMap|
      ensures forall u :: u in users <==> u in userMap.Values
      ensures forall i, j :: 0 <= i < j < |users| ==> users[i] != users[j]
    {
      var m := userMap;
      users := [];
      var rest := m.Keys;
      while rest != {}
        invariant rest <= m.Keys
        invariant |users| + |rest| == |m|
        invariant forall i :: 0 <= i < |users| ==> users[i].id in m && users[i].id !in rest && m[users[i].id] == users[i]
        invariant forall k :: k in m && k !in rest ==> m[k] in users
        invariant forall i, j :: 0 <= i < j < |users| ==> users[i].id != users[j].id
        decreases |rest|
      {
        NonEmptyHasElement(rest);
        var k :| k in rest;
        users := users + [m[k]];
        rest := rest - {k};
      }
      forall u | u in m.Values
        ensures u in users
      {
        ValueHasKey(m, u);
      }
    }

    /** findUserById: the user stored under `id`, absent exactly when `id` is not a key. */
    function FindUserById(id: int): (r: Option<User>)
      reads this
      requires Valid()
      ensures r.None? <==> id !in userMap
      ensures r.Some? ==> r.value == userMap[id] && r.value.id == id
    {
      if id in userMap then Some(userMap[id]) else None
    }

    /**
     * findUserByEmail: some stored user with that email if there is one
     * (which one, when several match, depends on the hash map's order),
     * otherwise absent.
     */
    method FindUserByEmail(email: string) returns (r: Option<User>)
      ensures r.Some? ==> r.value in userMap.Values && r.value.email == email
      ensures r.None? ==> forall k :: k in userMap ==> userMap[k].email != email
    {
      if exists k :: k in userMap && userMap[k].email == email {
        var k :| k in userMap && userMap[k].email == email;
        r := Some(userMap[k]);
      } else {
        r := None;
      }
    }

    /**
     * saveUser: a user with id 0 receives the counter's value, which no
     * earlier user ever had, and the counter advances by one; any other user
     * keeps its id. The user is then stored under its id, replacing what was
     * there, and returned.
     *
     * The store accepts any nonzero id, but an id the counter has not handed
     * out yet would later be handed out again; callers only pass ids they got
     * back from the store, which the precondition records.
     */
    method SaveUser(user: User) returns (saved: User)
      requires Valid()
      requires user.id == 0 || user.id in issued
      modifies this
      ensures Valid()
      ensures user.id == 0 ==>
        && saved == user.WithId(old(nextId))
        && saved.id !in old(issued) && saved.id !in old(userMap)
        && nextId == old(nextId) + 1 && issued == old(issued) + {saved.id}
      ensures user.id != 0 ==> saved == user && nextId == old(nextId) && issued == old(issued)
      ensures saved.id > 0
      ensures userMap == old(userMap)[saved.id := saved]
      ensures FindUserById(saved.id) == Some(saved)
    {
      saved := user;
      if user.id == 0 {
        saved := user.WithId(nextId);
        issued := issued + {nextId};
        nextId := nextId + 1;
      }
      userMap := userMap[saved.id := saved];
    }

    /** deleteUserById: removes `id` and nothing else; an absent id leaves the store as it was. The counter never goes back. */
    method DeleteUserById(id: int)
      requires Valid()
      modifies this
      ensures Valid()
      ensures userMap == old(userMap) - {id}
      ensures id !in old(userMap) ==> userMap == old(userMap) && |userMap| == |old(userMap)|
      ensures id in old(userMap) ==> |userMap| == |old(userMap)| - 1
      ensures nextId == old(nextId) && issued == old(issued)
      ensures FindUserById(id) == None
    {
      userMap := userMap - {id};
    }
  }
}
