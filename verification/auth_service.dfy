/**
 * Registration: the username and email uniqueness checks and the stored
 * user. Password encoding is a parameter; the token step is not modelled.
 */
module AuthService {
  import opened Wrappers
  import Seqs
  import opened Entities
  import opened Store

  /**
   * `register`: BadRequest when the username is taken, else BadRequest when
   * the email is taken (nothing changes in either case); otherwise exactly
   * one user is added with role USER and the encoded password, and the reply
   * carries the saved user's id, username and email.
   */
  method Register(db: Database, request: RegisterRequest, encode: string -> string) returns (r: Result<AuthResponse>)
    requires db.Valid()
    modifies db
    ensures db.Valid()
    ensures db.movies == old(db.movies) && db.reviews == old(db.reviews) && db.watchlist == old(db.watchlist)
    ensures UserByUsername(old(db.users), request.username).Some? ==>
      r == Failure(BadRequest("Username already exists")) && db.users == old(db.users)
    ensures UserByUsername(old(db.users), request.username).None? && EmailTaken(old(db.users), request.email) ==>
      r == Failure(BadRequest("Email already exists")) && db.users == old(db.users)
    ensures UserByUsername(old(db.users), request.username).None? && !EmailTaken(old(db.users), request.email) ==>
      && |db.users| == |old(db.users)| + 1
      && db.users[..|old(db.users)|] == old(db.users)
      && var u := db.users[|old(db.users)|];
      && (forall v :: v in old(db.users) ==> v.id != u.id)
      && u.username == request.username && u.email == request.email
      && u.password == encode(request.password)
      && u.role == USER
      && r == Success(AuthResponse(u.id, u.username, u.email))
  {
    if UserByUsername(db.users, request.username).Some? {
      return Failure(BadRequest("Username already exists"));
    }
    if EmailTaken(db.users, request.email) {
      return Failure(BadRequest("Email already exists"));
    }
    var u := User(db.nextUserId, request.username, request.email, encode(request.password), USER);
    db.nextUserId := db.nextUserId + 1;
    Seqs.AscendingSnoc(db.users, u, UserKey);
    AppendKeepsUsersUnique(db.users, u);
    ghost var before := db.users;
    db.users := db.users + [u];
    assert db.users[..|before|] == before;
    r := Success(AuthResponse(u.id, u.username, u.email));
  }
}
