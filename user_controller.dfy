/**
 * `syncUser`: mirrors an authenticated user into the user table. An older user that
 * holds the same email under another id is removed first, together with its
 * enrollments, and then the user is upserted with defaulted name and avatar.
 */
module UserController {
  import opened Wrappers
  import opened Requests
  import opened Enrollments
  import opened EnrollmentRepository

  const MethodNotAllowed: string := "Method not allowed"
  const MissingFields: string := "Missing required fields"
  const AvatarBase: string := "https://api.dicebear.com/7.x/avataaars/svg?seed="

  datatype User = User(id: string, email: string, name: string, avatarUrl: string)

  /** The HTTP method and the JSON body fields the handler reads. */
  datatype SyncRequest = SyncRequest(httpMethod: string, id: Option<string>, email: Option<string>,
                                     name: Option<string>, avatarUrl: Option<string>)

  datatype SyncResponse = SyncResponse(status: int, data: Option<User>, error: Option<string>)

  /** `email.split('@')[0]`: the text before the first '@', or all of it when there is none. */
  function LocalPart(email: string): (r: string)
    ensures |r| <= |email| && r == email[..|r|]
    ensures '@' !in r
    ensures |r| < |email| ==> email[|r|] == '@'
  {
    if email == [] || email[0] == '@' then []
    else [email[0]] + LocalPart(email[1..])
  }

  /** `name || email.split('@')[0]`. */
  function DefaultName(name: Option<string>, email: string): (r: string)
    ensures Truthy(name) ==> r == name.value
    ensures !Truthy(name) ==> r == LocalPart(email)
  {
    if Truthy(name) then name.value else LocalPart(email)
  }

  /** `avatarUrl || <dicebear URL seeded with the email>`. */
  function DefaultAvatar(avatarUrl: Option<string>, email: string): (r: string)
    ensures Truthy(avatarUrl) ==> r == avatarUrl.value
    ensures !Truthy(avatarUrl) ==> r == AvatarBase + email && r[|AvatarBase|..] == email
  {
    if Truthy(avatarUrl) then avatarUrl.value else AvatarBase + email
  }

  /** Users are keyed by id, and no two users share an email. */
  predicate UsersValid(users: map<string, User>) {
    && (forall id | id in users :: users[id].id == id)
    && (forall a, b | a in users && b in users && users[a].email == users[b].email :: a == b)
  }

  /** `sid` is a user other than `id` that already holds `email`. */
  predicate HoldsEmailElsewhere(users: map<string, User>, sid: string, id: string, email: string) {
    sid in users && sid != id && users[sid].email == email
  }

  class UserTable {
    var users: map<string, User>

    predicate Valid()
      reads this
    {
      UsersValid(users)
    }

    constructor ()
      ensures Valid() && users == map[]
    {
      users := map[];
    }

    /** `findUnique` by email: the one user holding it, or none. */
    method FindByEmail(email: string) returns (found: Option<User>)
      requires Valid()
      ensures found.Some? <==> exists id | id in users :: users[id].email == email
      ensures found.Some? ==> found.value.id in users && users[found.value.id] == found.value && found.value.email == email
    {
      if exists id | id in users :: users[id].email == email {
        var id :| id in users && users[id].email == email;
        found := Some(users[id]);
      } else {
        found := None;
      }
    }

    /** `delete` by id, of a user that exists. */
    method Delete(id: string)
      requires Valid() && id in users
      modifies this
      ensures Valid()
      ensures users == map x | x in old(users) && x != id :: old(users)[x]
    {
      users := map x | x in users && x != id :: users[x];
    }

    /** `upsert` by id: the user under `id` now holds exactly the given fields. */
    method Upsert(id: string, email: string, name: string, avatarUrl: string) returns (user: User)
      requires Valid()
      requires forall other | other in users && other != id :: users[other].email != email
      modifies this
      ensures Valid()
      ensures user == User(id, email, name, avatarUrl)
      ensures users == old(users)[id := user]
    {
      user := User(id, email, name, avatarUrl);
      users := users[id := user];
    }
  }

  /** The users left after removing every other holder of `email`. */
  function Evicted(users: map<string, User>, id: string, email: string): map<string, User> {
    map x | x in users && !HoldsEmailElsewhere(users, x, id, email) :: users[x]
  }

  /** The enrollments left after removing those of every other holder of `email`. */
  function EvictedTable(table: Table, users: map<string, User>, id: string, email: string): Table {
    map k | k in table && !HoldsEmailElsewhere(users, k.studentId, id, email) :: table[k]
  }

  /** With emails unique, a user other than `id` found holding `email` is its only other holder. */
  lemma OnlyOtherHolder(users: map<string, User>, id: string, email: string, sid: string)
    requires UsersValid(users) && sid in users && users[sid].email == email && sid != id
    ensures forall x :: HoldsEmailElsewhere(users, x, id, email) <==> x == sid
  {
  }

  /** When the only holder of `email` (if any) is `id`, nothing is evicted. */
  lemma NoOtherHolder(users: map<string, User>, table: Table, id: string, email: string)
    requires forall x | x in users && users[x].email == email :: x == id
    ensures Evicted(users, id, email) == users
    ensures EvictedTable(table, users, id, email) == table
  {
  }

  /**
   * `syncUser`. Anything but POST is a 405 and a missing id or email a 400, both without
   * a change. Otherwise the other holder of the email, if any, loses its enrollments and
   * then its user record, and the user is upserted: afterwards exactly one user, the
   * given id, holds the email.
   */
  method SyncUser(users: UserTable, store: EnrollmentStore, request: SyncRequest) returns (response: SyncResponse)
    requires users.Valid() && store.Valid()
    modifies users, store
    ensures users.Valid() && store.Valid()
    ensures request.httpMethod != "POST" ==>
              response == SyncResponse(405, None, Some(MethodNotAllowed)) &&
              users.users == old(users.users) && store.table == old(store.table)
    ensures request.httpMethod == "POST" && (!Truthy(request.id) || !Truthy(request.email)) ==>
              response == SyncResponse(400, None, Some(MissingFields)) &&
              users.users == old(users.users) && store.table == old(store.table)
    ensures request.httpMethod == "POST" && Truthy(request.id) && Truthy(request.email) ==>
              var id, email := request.id.value, request.email.value;
              var user := User(id, email, DefaultName(request.name, email), DefaultAvatar(request.avatarUrl, email));
              && response == SyncResponse(200, Some(user), None)
              && users.users == Evicted(old(users.users), id, email)[id := user]
              && store.table == EvictedTable(old(store.table), old(users.users), id, email)
              && (forall x | x in users.users :: users.users[x].email == email <==> x == id)
  {
    if request.httpMethod != "POST" {
      return SyncResponse(405, None, Some(MethodNotAllowed));
    }
    if !Truthy(request.id) || !Truthy(request.email) {
      return SyncResponse(400, None, Some(MissingFields));
    }
    var id, email := request.id.value, request.email.value;
    ghost var users0, table0 := users.users, store.table;
    var existing := users.FindByEmail(email);
    if existing.Some? && existing.value.id != id {
      var sid := existing.value.id;
      OnlyOtherHolder(users0, id, email, sid);
      store.DeleteByStudentId(sid);
      assert store.table == EvictedTable(table0, users0, id, email);
      users.Delete(sid);
      assert users.users == Evicted(users0, id, email);
    } else {
      NoOtherHolder(users0, table0, id, email);
    }
    var user := users.Upsert(id, email, DefaultName(request.name, email), DefaultAvatar(request.avatarUrl, email));
    response := SyncResponse(200, Some(user), None);
  }
}
