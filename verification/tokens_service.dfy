/** The refresh-token store: at most one refresh token per user, replaced
    on every save, looked up and deleted by its value. The table is a map
    keyed by user id, so "one row per user" holds by construction; the
    clock is the explicit parameter `now` in milliseconds. */
module TokensService {
  import opened Common

  /** A stored refresh token row. */
  datatype RefreshToken = RefreshToken(userId: UserId, token: string, expiresAt: int)

  type TokenStore = map<UserId, RefreshToken>

  /** Fifteen days, in milliseconds. */
  const RefreshLifetimeMs: int := 15 * 24 * 60 * 60 * 1000

  /** Every row is stored under its own user id. */
  predicate Valid(s: TokenStore) {
    forall u | u in s :: s[u].userId == u
  }

  /** The users whose row currently holds `token`. */
  function Holders(s: TokenStore, token: string): set<UserId> {
    set u | u in s && s[u].token == token
  }

  /** Upsert keyed by user: inserts a row for a new user and replaces token
      and expiry of an existing one; the row expires fifteen days after
      `now` on both paths and no other user's row changes. */
  function Save(s: TokenStore, token: string, userId: UserId, now: int): (r: (TokenStore, RefreshToken))
    ensures r.1 == RefreshToken(userId, token, now + 1296000000)
    ensures r.0.Keys == s.Keys + {userId}
    ensures r.0[userId] == r.1
    ensures forall u | u in s && u != userId :: r.0[u] == s[u]
    ensures |r.0| == if userId in s then |s| else |s| + 1
    ensures Valid(s) ==> Valid(r.0)
  {
    var row := RefreshToken(userId, token, now + RefreshLifetimeMs);
    (s[userId := row], row)
  }

  /** What a lookup by value may answer: NotFound exactly when no row holds
      the token, otherwise one of the rows that hold it. */
  predicate FindsRow(s: TokenStore, token: string, r: Result<RefreshToken>) {
    if Holders(s, token) == {} then r == Failure(NotFound)
    else r.Success? && r.value.userId in Holders(s, token) && r.value == s[r.value.userId]
  }

  /** Looks a refresh token up by value. The database returns the first
      matching row, in an order the model leaves open. */
  method Find(s: TokenStore, token: string) returns (r: Result<RefreshToken>)
    requires Valid(s)
    ensures FindsRow(s, token, r)
    ensures r.Success? ==> r.value.token == token
  {
    if u :| u in s && s[u].token == token {
      assert u in Holders(s, token);
      r := Success(s[u]);
    } else {
      assert Holders(s, token) == {};
      r := Failure(NotFound);
    }
  }

  /** Deletes every row holding `token` and reports how many went. Rows
      holding other tokens stay as they were; deleting an unknown token is
      not an error and reports zero. */
  function DeleteByToken(s: TokenStore, token: string): (r: (TokenStore, nat))
    ensures r.0.Keys == s.Keys - Holders(s, token)
    ensures forall u | u in r.0 :: r.0[u] == s[u] && r.0[u].token != token
    ensures r.1 == |s| - |r.0|
    ensures Holders(r.0, token) == {}
    ensures Valid(s) ==> Valid(r.0)
  {
    var gone := Holders(s, token);
    var rest := map u | u in s && s[u].token != token :: s[u];
    assert rest.Keys == s.Keys - gone;
    (rest, |gone|)
  }

  /** Deleting the same token twice is the same as deleting it once, and
      the second call reports nothing deleted. */
  lemma DeleteIdempotent(s: TokenStore, token: string)
    ensures DeleteByToken(DeleteByToken(s, token).0, token) == (DeleteByToken(s, token).0, 0)
  {
    var once := DeleteByToken(s, token).0;
    var twice := DeleteByToken(once, token).0;
    assert twice.Keys == once.Keys;
    assert twice == once;
  }

  /** Rotation: once a user's token is replaced by a different one, the old
      value is no longer found, the new one is, and it leads back to that
      user whenever nobody else holds the new value. */
  lemma Rotation(s: TokenStore, u: UserId, t1: string, t2: string, now1: int, now2: int)
    requires Valid(s)
    requires t1 != t2
    requires forall v | v in s && v != u :: s[v].token != t1
    ensures var s2 := Save(Save(s, t1, u, now1).0, t2, u, now2).0;
      && Holders(s2, t1) == {}
      && (forall r :: FindsRow(s2, t1, r) <==> r == Failure(NotFound))
      && u in Holders(s2, t2)
      && (forall r :: FindsRow(s2, t2, r) ==> r.Success? && r.value.token == t2)
    ensures var s2 := Save(Save(s, t1, u, now1).0, t2, u, now2).0;
      (forall v | v in s && v != u :: s[v].token != t2) ==>
        forall r :: FindsRow(s2, t2, r) <==> r == Success(RefreshToken(u, t2, now2 + RefreshLifetimeMs))
  {
  }

  /** After a logout by token value, that value is no longer found. */
  lemma DeleteThenFind(s: TokenStore, token: string)
    ensures forall r :: FindsRow(DeleteByToken(s, token).0, token, r) <==> r == Failure(NotFound)
  {
  }
}
