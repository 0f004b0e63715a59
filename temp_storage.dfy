/** The in-memory user store (server/utils/tempStorage.js): one shared array of user records,
 *  appended to by `addUser` and searched by the three lookups. */
module TempStorage {
  import opened Wrappers
  import Seqs

  /** A stored user record; `password` holds the hash of the password, never the password. */
  datatype StoredUser = StoredUser(id: string, fullname: string, username: string, email: string,
                                   password: string, gender: string, profilepic: string)

  /** The shared `tempUsers` array. */
  class UserStore {
    var users: seq<StoredUser>

    constructor ()
      ensures users == []
    {
      users := [];
    }

    /** `addUser`: append at the end; every earlier record keeps its place. */
    method AddUser(user: StoredUser)
      modifies this
      ensures users == old(users) + [user]
      ensures |users| == |old(users)| + 1 && users[..|old(users)|] == old(users) && users[|users| - 1] == user
    {
      users := users + [user];
    }
  }

  /** `findUserByEmail`: the first record whose email equals `email`, or None when there is none. */
  function FindUserByEmail(users: seq<StoredUser>, email: string): (r: Option<StoredUser>)
    ensures r.None? <==> forall i | 0 <= i < |users| :: users[i].email != email
    ensures r.Some? ==> (r.value.email == email &&
              exists i | 0 <= i < |users| :: users[i] == r.value && forall j | 0 <= j < i :: users[j].email != email)
  {
    Seqs.Find((u: StoredUser) => u.email == email, users)
  }

  /** `findUserByUsername`: the first record whose username equals `username`, or None when there
   *  is none. */
  function FindUserByUsername(users: seq<StoredUser>, username: string): (r: Option<StoredUser>)
    ensures r.None? <==> forall i | 0 <= i < |users| :: users[i].username != username
    ensures r.Some? ==> (r.value.username == username &&
              exists i | 0 <= i < |users| :: users[i] == r.value && forall j | 0 <= j < i :: users[j].username != username)
  {
    Seqs.Find((u: StoredUser) => u.username == username, users)
  }

  /** `getAllUsersExcept`: every record whose id differs from `excludeId`, and no other. */
  function GetAllUsersExcept(users: seq<StoredUser>, excludeId: string): (r: seq<StoredUser>)
    ensures forall i | 0 <= i < |r| :: r[i].id != excludeId && r[i] in users
    ensures forall i | 0 <= i < |users| && users[i].id != excludeId :: users[i] in r
  {
    Seqs.Filter((u: StoredUser) => u.id != excludeId, users)
  }

  /** The records keep their original order: a record appended later comes after every record
   *  kept from before. */
  lemma GetAllUsersExceptAppend(users: seq<StoredUser>, user: StoredUser, excludeId: string)
    ensures GetAllUsersExcept(users + [user], excludeId) ==
            GetAllUsersExcept(users, excludeId) + (if user.id != excludeId then [user] else [])
  {
    Seqs.FilterConcat((u: StoredUser) => u.id != excludeId, users, [user]);
  }

  /** With no record carrying `excludeId`, the whole array comes back. */
  lemma GetAllUsersExceptAbsent(users: seq<StoredUser>, excludeId: string)
    requires forall i | 0 <= i < |users| :: users[i].id != excludeId
    ensures GetAllUsersExcept(users, excludeId) == users
  {
    Seqs.FilterKeepsAll((u: StoredUser) => u.id != excludeId, users);
  }

  /** The store's invariant as the sign-up rules keep it: no two records share a username, and no
   *  two share an email. */
  predicate UniqueAccounts(users: seq<StoredUser>)
  {
    forall i, j | 0 <= i < j < |users| :: users[i].username != users[j].username && users[i].email != users[j].email
  }

  /** Appending a record whose username and email no record has keeps the invariant. */
  lemma AppendKeepsUnique(users: seq<StoredUser>, user: StoredUser)
    requires UniqueAccounts(users)
    requires FindUserByUsername(users, user.username).None? && FindUserByEmail(users, user.email).None?
    ensures UniqueAccounts(users + [user])
  {
    var r := users + [user];
    forall i, j | 0 <= i < j < |r| ensures r[i].username != r[j].username && r[i].email != r[j].email {
      if j == |users| {
        assert r[i] == users[i];
      }
    }
  }
}
