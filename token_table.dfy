/**
 * The two tables the password-reset service reads and writes, as values:
 * `password_reset_tokens` (a sequence of rows in insertion order) and
 * `users` (a map from id to record).  Every SQL statement the service issues
 * is a function here; the lemmas state the lifecycle guarantees of a token.
 * Time is a whole number of seconds.
 */
module TokenTable {
  import opened Wrappers

  type UserId = int

  /** A row of `password_reset_tokens`; `used` starts false. */
  datatype TokenRow = TokenRow(userId: UserId, token: string, expiresAt: int, used: bool)

  /** A row of `users`, keyed by its id in the table map. */
  datatype UserRecord = UserRecord(name: string, email: string, passwordHash: string)

  /** The user object the token query builds from the joined row. */
  datatype User = User(id: UserId, name: string, email: string)

  // ------------------------------------------------------------------
  // Table invariants: UNIQUE(token), and at most one row per user

  /** No two rows agree on `key`. */
  predicate DistinctBy<K(==)>(rows: seq<TokenRow>, key: TokenRow -> K) {
    forall i, j | 0 <= i < j < |rows| :: key(rows[i]) != key(rows[j])
  }

  function TokenOf(row: TokenRow): string { row.token }

  function OwnerOf(row: TokenRow): UserId { row.userId }

  /** The schema's `token TEXT NOT NULL UNIQUE`. */
  predicate UniqueTokens(rows: seq<TokenRow>) { DistinctBy(rows, TokenOf) }

  /** At most one row per user: what issuing a token maintains. */
  predicate OneRowPerUser(rows: seq<TokenRow>) { DistinctBy(rows, OwnerOf) }

  predicate HasToken(rows: seq<TokenRow>, token: string) {
    exists row | row in rows :: row.token == token
  }

  lemma DistinctByKeyDetermines<K>(rows: seq<TokenRow>, key: TokenRow -> K, a: TokenRow, b: TokenRow)
    requires DistinctBy(rows, key) && a in rows && b in rows && key(a) == key(b)
    ensures a == b
  {
    var i :| 0 <= i < |rows| && rows[i] == a;
    var j :| 0 <= j < |rows| && rows[j] == b;
  }

  lemma DistinctCons<K>(head: TokenRow, tail: seq<TokenRow>, key: TokenRow -> K)
    requires DistinctBy(tail, key)
    requires forall row | row in tail :: key(row) != key(head)
    ensures DistinctBy([head] + tail, key)
  {
    var rows := [head] + tail;
    forall i, j | 0 <= i < j < |rows| ensures key(rows[i]) != key(rows[j]) {
      assert rows[j] == tail[j - 1] && tail[j - 1] in tail;
      if 0 < i {
        assert rows[i] == tail[i - 1];
      }
    }
  }

  lemma DistinctSnoc<K>(rows: seq<TokenRow>, last: TokenRow, key: TokenRow -> K)
    requires DistinctBy(rows, key)
    requires forall row | row in rows :: key(row) != key(last)
    ensures DistinctBy(rows + [last], key)
  {
    var r := rows + [last];
    forall i, j | 0 <= i < j < |r| ensures key(r[i]) != key(r[j]) {
      assert r[i] == rows[i] && rows[i] in rows;
    }
  }

  // ------------------------------------------------------------------
  // DELETE ... WHERE: keeping the rows a condition holds of, in order

  function Filter(rows: seq<TokenRow>, keep: TokenRow -> bool): (r: seq<TokenRow>)
    ensures |r| <= |rows|
    ensures forall row :: row in r <==> row in rows && keep(row)
  {
    if rows == [] then []
    else (if keep(rows[0]) then [rows[0]] else []) + Filter(rows[1..], keep)
  }

  lemma {:induction false} FilterConcat(a: seq<TokenRow>, b: seq<TokenRow>, keep: TokenRow -> bool)
    ensures Filter(a + b, keep) == Filter(a, keep) + Filter(b, keep)
  {
    if a == [] {
      assert a + b == b;
    } else {
      assert (a + b)[0] == a[0] && (a + b)[1..] == a[1..] + b;
      FilterConcat(a[1..], b, keep);
    }
  }

  lemma {:induction false} FilterAll(rows: seq<TokenRow>, keep: TokenRow -> bool)
    requires forall row | row in rows :: keep(row)
    ensures Filter(rows, keep) == rows
  {
    if rows != [] {
      assert rows[0] in rows;
      FilterAll(rows[1..], keep);
      assert [rows[0]] + rows[1..] == rows;
    }
  }

  lemma FilterNone(rows: seq<TokenRow>, keep: TokenRow -> bool)
    requires forall row | row in rows :: !keep(row)
    ensures Filter(rows, keep) == []
  {
    var r := Filter(rows, keep);
    assert forall k | 0 <= k < |r| :: r[k] in r;
  }

  lemma {:induction false} FilterKeepsDistinct<K>(rows: seq<TokenRow>, keep: TokenRow -> bool, key: TokenRow -> K)
    requires DistinctBy(rows, key)
    ensures DistinctBy(Filter(rows, keep), key)
  {
    if rows != [] {
      var tail := rows[1..];
      assert DistinctBy(tail, key) by {
        forall i, j | 0 <= i < j < |tail| ensures key(tail[i]) != key(tail[j]) {
          assert tail[i] == rows[i + 1] && tail[j] == rows[j + 1];
        }
      }
      FilterKeepsDistinct(tail, keep, key);
      if keep(rows[0]) {
        forall row | row in Filter(tail, keep) ensures key(row) != key(rows[0]) {
          var k :| 0 <= k < |tail| && tail[k] == row;
          assert rows[k + 1] == row;
        }
        DistinctCons(rows[0], Filter(tail, keep), key);
      }
    }
  }

  /** The condition of `DELETE FROM password_reset_tokens WHERE user_id = ?`, negated. */
  function NotOwnedBy(u: UserId): TokenRow -> bool { (row: TokenRow) => row.userId != u }

  function OwnedBy(u: UserId): TokenRow -> bool { (row: TokenRow) => row.userId == u }

  /** Deleting every row of user `u`. */
  function RemoveUser(rows: seq<TokenRow>, u: UserId): (r: seq<TokenRow>)
    ensures forall row :: row in r <==> row in rows && row.userId != u
  {
    Filter(rows, NotOwnedBy(u))
  }

  // ------------------------------------------------------------------
  // Issuing: DELETE the user's rows, then INSERT one unused row

  function Issue(rows: seq<TokenRow>, u: UserId, token: string, expiresAt: int): (r: seq<TokenRow>)
    ensures |r| > 0 && r[|r| - 1] == TokenRow(u, token, expiresAt, false)
    ensures forall row :: row in r <==> (row in rows && row.userId != u) || row == TokenRow(u, token, expiresAt, false)
  {
    RemoveUser(rows, u) + [TokenRow(u, token, expiresAt, false)]
  }

  /** The INSERT goes through: no storage error, and the token is not in the table left by the DELETE. */
  predicate InsertAccepted(rows: seq<TokenRow>, u: UserId, token: string, insertOk: bool) {
    insertOk && !HasToken(RemoveUser(rows, u), token)
  }

  /**
   * The table after `DELETE ... WHERE user_id = u` and `INSERT`, run with no
   * transaction around them: a failed DELETE changes nothing, a failed
   * INSERT leaves the DELETE done.
   */
  function StoreOutcome(rows: seq<TokenRow>, u: UserId, token: string, expiresAt: int,
                        deleteOk: bool, insertOk: bool): (r: seq<TokenRow>)
    ensures forall row: TokenRow | row.userId != u :: row in r <==> row in rows
    ensures deleteOk ==> forall row | row in r && row.userId == u :: row == TokenRow(u, token, expiresAt, false)
  {
    if !deleteOk then rows
    else if InsertAccepted(rows, u, token, insertOk) then Issue(rows, u, token, expiresAt)
    else RemoveUser(rows, u)
  }

  /** After issuing, user `u` owns exactly the new row and every other user's rows are as before. */
  lemma IssueReplacesUserRows(rows: seq<TokenRow>, u: UserId, token: string, expiresAt: int)
    ensures Filter(Issue(rows, u, token, expiresAt), OwnedBy(u)) == [TokenRow(u, token, expiresAt, false)]
    ensures RemoveUser(Issue(rows, u, token, expiresAt), u) == RemoveUser(rows, u)
  {
    var kept := RemoveUser(rows, u);
    var newRow := TokenRow(u, token, expiresAt, false);
    FilterConcat(kept, [newRow], OwnedBy(u));
    FilterNone(kept, OwnedBy(u));
    FilterConcat(kept, [newRow], NotOwnedBy(u));
    FilterAll(kept, NotOwnedBy(u));
    assert [newRow][1..] == [];
  }

  /**
   * Both outcomes of issuing keep the table invariants: the delete alone,
   * and the delete followed by the insert, provided the new token is not
   * already in the table after the delete (otherwise the INSERT is refused).
   */
  lemma IssueKeepsWellFormed(rows: seq<TokenRow>, u: UserId, token: string, expiresAt: int)
    requires UniqueTokens(rows)
    ensures UniqueTokens(RemoveUser(rows, u))
    ensures !HasToken(RemoveUser(rows, u), token) ==> UniqueTokens(Issue(rows, u, token, expiresAt))
    ensures OneRowPerUser(rows) ==>
      OneRowPerUser(RemoveUser(rows, u)) && OneRowPerUser(Issue(rows, u, token, expiresAt))
  {
    var kept := RemoveUser(rows, u);
    var newRow := TokenRow(u, token, expiresAt, false);
    FilterKeepsDistinct(rows, NotOwnedBy(u), TokenOf);
    if !HasToken(kept, token) {
      DistinctSnoc(kept, newRow, TokenOf);
    }
    if OneRowPerUser(rows) {
      RemoveUserKeepsOneRowPerUser(rows, u);
      DistinctSnoc(kept, newRow, OwnerOf);
    }
  }

  // ------------------------------------------------------------------
  // Looking a token up: SELECT ... JOIN users ... WHERE token = ?

  /** The first row with this token whose user exists (the inner join). */
  function Select(rows: seq<TokenRow>, users: map<UserId, UserRecord>, token: string): (r: Option<TokenRow>)
    ensures r.Some? ==> r.value in rows && r.value.token == token && r.value.userId in users
    ensures r.None? ==> forall row | row in rows :: row.token == token ==> row.userId !in users
  {
    if rows == [] then None
    else if rows[0].token == token && rows[0].userId in users then Some(rows[0])
    else Select(rows[1..], users, token)
  }

  function JoinUser(row: TokenRow, users: map<UserId, UserRecord>): User
    requires row.userId in users
  {
    User(row.userId, users[row.userId].name, users[row.userId].email)
  }

  /**
   * The user a token stands for, or None when the token is unknown, its
   * user is gone, it was used, or the clock is past its expiry.
   * Whatever the table holds, an accepted token has a live row.
   */
  function Lookup(rows: seq<TokenRow>, users: map<UserId, UserRecord>, token: string, now: int): (r: Option<User>)
    ensures r.Some? ==>
      r.value.id in users && r.value.name == users[r.value.id].name && r.value.email == users[r.value.id].email
    ensures r.Some? ==> exists row | row in rows ::
      row.token == token && row.userId == r.value.id && !row.used && now <= row.expiresAt
  {
    match Select(rows, users, token)
    case None => None
    case Some(row) =>
      if row.used then None
      else if now > row.expiresAt then None
      else Some(JoinUser(row, users))
  }

  lemma {:induction false} SelectUnique(rows: seq<TokenRow>, users: map<UserId, UserRecord>, token: string, row: TokenRow)
    requires UniqueTokens(rows) && row in rows && row.token == token
    ensures Select(rows, users, token) == if row.userId in users then Some(row) else None
  {
    if rows[0] == row {
      if row.userId !in users {
        forall other | other in rows[1..] ensures other.token != token {
          var k :| 0 <= k < |rows[1..]| && rows[1..][k] == other;
          assert TokenOf(rows[0]) != TokenOf(rows[k + 1]);
        }
      }
    } else {
      var k :| 0 <= k < |rows| && rows[k] == row;
      assert TokenOf(rows[0]) != TokenOf(rows[k]);
      assert rows[1..][k - 1] == row;
      assert UniqueTokens(rows[1..]) by {
        var tail := rows[1..];
        forall i, j | 0 <= i < j < |tail| ensures TokenOf(tail[i]) != TokenOf(tail[j]) {
          assert tail[i] == rows[i + 1] && tail[j] == rows[j + 1];
        }
      }
      SelectUnique(rows[1..], users, token, row);
    }
  }

  /**
   * With unique tokens, a token that has a row is accepted exactly when its
   * user exists, the row is unused and `now <= expiresAt` (so a token is
   * still good at its expiry second); the user returned is that row's.
   */
  lemma LookupSpec(rows: seq<TokenRow>, users: map<UserId, UserRecord>, token: string, now: int, row: TokenRow)
    requires UniqueTokens(rows) && row in rows && row.token == token
    ensures Lookup(rows, users, token, now) ==
      if row.userId in users && !row.used && now <= row.expiresAt then Some(JoinUser(row, users)) else None
  {
    SelectUnique(rows, users, token, row);
  }

  /**
   * Issuing a new token for the owner of an earlier token makes the earlier
   * token unknown, whether or not the INSERT of the new row succeeded.
   */
  lemma IssueSupersedes(rows: seq<TokenRow>, users: map<UserId, UserRecord>, earlier: TokenRow,
                        token: string, expiresAt: int, now: int)
    requires UniqueTokens(rows) && earlier in rows && token != earlier.token
    ensures !HasToken(RemoveUser(rows, earlier.userId), earlier.token)
    ensures Lookup(RemoveUser(rows, earlier.userId), users, earlier.token, now) == None
    ensures Lookup(Issue(rows, earlier.userId, token, expiresAt), users, earlier.token, now) == None
  {
    var kept := RemoveUser(rows, earlier.userId);
    forall row | row in kept ensures row.token != earlier.token {
      if row.token == earlier.token {
        DistinctByKeyDetermines(rows, TokenOf, row, earlier);
      }
    }
  }

  /**
   * A freshly issued token stands for its user until (and including) its
   * expiry second, and not after.
   */
  lemma IssuedTokenLifetime(rows: seq<TokenRow>, users: map<UserId, UserRecord>, u: UserId,
                            token: string, expiresAt: int, now: int)
    requires UniqueTokens(rows) && !HasToken(RemoveUser(rows, u), token)
    ensures Lookup(Issue(rows, u, token, expiresAt), users, token, now) ==
      if u in users && now <= expiresAt then Some(User(u, users[u].name, users[u].email)) else None
  {
    IssueKeepsWellFormed(rows, u, token, expiresAt);
    var issued := Issue(rows, u, token, expiresAt);
    var newRow := TokenRow(u, token, expiresAt, false);
    assert issued[|issued| - 1] == newRow;
    LookupSpec(issued, users, token, now, newRow);
  }

  // ------------------------------------------------------------------
  // UPDATE password_reset_tokens SET used = true WHERE token = ?

  function MarkUsed(rows: seq<TokenRow>, token: string): (r: seq<TokenRow>)
    ensures |r| == |rows|
    ensures forall i | 0 <= i < |rows| ::
      r[i] == if rows[i].token == token then rows[i].(used := true) else rows[i]
  {
    if rows == [] then []
    else [if rows[0].token == token then rows[0].(used := true) else rows[0]] + MarkUsed(rows[1..], token)
  }

  /** A marked token is rejected at any time and whoever the users are. */
  lemma MarkUsedRejects(rows: seq<TokenRow>, users: map<UserId, UserRecord>, token: string, now: int)
    ensures Lookup(MarkUsed(rows, token), users, token, now) == None
  {
    var marked := MarkUsed(rows, token);
    forall row | row in marked && row.token == token ensures row.used {
      var k :| 0 <= k < |marked| && marked[k] == row;
    }
  }

  lemma MarkUsedIdempotent(rows: seq<TokenRow>, token: string)
    ensures MarkUsed(MarkUsed(rows, token), token) == MarkUsed(rows, token)
  {
    var once := MarkUsed(rows, token);
    var twice := MarkUsed(once, token);
    assert forall i | 0 <= i < |rows| :: twice[i] == once[i];
  }

  lemma {:induction false} SelectMarkUsed(rows: seq<TokenRow>, users: map<UserId, UserRecord>, token: string, other: string)
    requires other != token
    ensures Select(MarkUsed(rows, token), users, other) == Select(rows, users, other)
  {
    if rows != [] {
      var marked := MarkUsed(rows, token);
      assert marked[1..] == MarkUsed(rows[1..], token);
      SelectMarkUsed(rows[1..], users, token, other);
    }
  }

  /** Marking one token used changes the answer for no other token. */
  lemma MarkUsedKeepsOtherTokens(rows: seq<TokenRow>, users: map<UserId, UserRecord>, token: string, other: string, now: int)
    requires other != token
    ensures Lookup(MarkUsed(rows, token), users, other, now) == Lookup(rows, users, other, now)
  {
    SelectMarkUsed(rows, users, token, other);
  }

  /** Marking keeps the token and owner of every row, so both table invariants hold on. */
  lemma MarkUsedKeepsWellFormed(rows: seq<TokenRow>, token: string)
    ensures UniqueTokens(rows) ==> UniqueTokens(MarkUsed(rows, token))
    ensures OneRowPerUser(rows) ==> OneRowPerUser(MarkUsed(rows, token))
  {
    var marked := MarkUsed(rows, token);
    assert forall i | 0 <= i < |rows| :: TokenOf(marked[i]) == TokenOf(rows[i]) && OwnerOf(marked[i]) == OwnerOf(rows[i]);
  }

  // ------------------------------------------------------------------
  // UPDATE users SET password = ? WHERE id = ?

  function SetPasswordHash(users: map<UserId, UserRecord>, id: UserId, hash: string): (r: map<UserId, UserRecord>)
    ensures r.Keys == users.Keys
    ensures forall k | k in r :: r[k].name == users[k].name && r[k].email == users[k].email
    ensures forall k | k in r :: r[k].passwordHash == (if k == id then hash else users[k].passwordHash)
  {
    if id in users then users[id := users[id].(passwordHash := hash)] else users
  }

  lemma {:induction false} SelectSameUserIds(rows: seq<TokenRow>, users: map<UserId, UserRecord>,
                                           others: map<UserId, UserRecord>, token: string)
    requires users.Keys == others.Keys
    ensures Select(rows, users, token) == Select(rows, others, token)
  {
    if rows != [] {
      SelectSameUserIds(rows[1..], users, others, token);
    }
  }

  /** Changing a password hash changes no token's answer. */
  lemma LookupIgnoresPasswordHash(rows: seq<TokenRow>, users: map<UserId, UserRecord>, id: UserId,
                                  hash: string, token: string, now: int)
    ensures Lookup(rows, SetPasswordHash(users, id, hash), token, now) == Lookup(rows, users, token, now)
  {
    SelectSameUserIds(rows, users, SetPasswordHash(users, id, hash), token);
  }

  // ------------------------------------------------------------------
  // Cleanup: COUNT, then DELETE, the rows with expires_at < now OR used

  predicate Stale(row: TokenRow, now: int) {
    row.expiresAt < now || row.used
  }

  function LiveAt(now: int): TokenRow -> bool { (row: TokenRow) => !Stale(row, now) }

  function Sweep(rows: seq<TokenRow>, now: int): (r: seq<TokenRow>)
    ensures forall row :: row in r <==> row in rows && !Stale(row, now)
  {
    Filter(rows, LiveAt(now))
  }

  function CountStale(rows: seq<TokenRow>, now: int): (r: nat)
    ensures r <= |rows|
    ensures r == 0 <==> forall row | row in rows :: !Stale(row, now)
  {
    if rows == [] then 0
    else (if Stale(rows[0], now) then 1 else 0) + CountStale(rows[1..], now)
  }

  /** The count cleanup reports is the number of rows it deletes. */
  lemma {:induction false} SweepCount(rows: seq<TokenRow>, now: int)
    ensures |Sweep(rows, now)| + CountStale(rows, now) == |rows|
  {
    if rows != [] {
      SweepCount(rows[1..], now);
    }
  }

  /** Cleanup changes the answer for no token at the time it runs. */
  lemma SweepKeepsLookup(rows: seq<TokenRow>, users: map<UserId, UserRecord>, token: string, now: int)
    requires UniqueTokens(rows)
    ensures UniqueTokens(Sweep(rows, now))
    ensures Lookup(Sweep(rows, now), users, token, now) == Lookup(rows, users, token, now)
  {
    var swept := Sweep(rows, now);
    FilterKeepsDistinct(rows, LiveAt(now), TokenOf);
    if row :| row in rows && row.token == token {
      LookupSpec(rows, users, token, now, row);
      if row in swept {
        LookupSpec(swept, users, token, now, row);
      } else {
        forall other | other in swept ensures other.token != token {
          if other.token == token {
            DistinctByKeyDetermines(rows, TokenOf, row, other);
          }
        }
      }
    }
  }

  /** Cleanup keeps one row per user. */
  lemma SweepKeepsOneRowPerUser(rows: seq<TokenRow>, now: int)
    requires OneRowPerUser(rows)
    ensures OneRowPerUser(Sweep(rows, now))
  {
    FilterKeepsDistinct(rows, LiveAt(now), OwnerOf);
  }

  lemma RemoveUserKeepsOneRowPerUser(rows: seq<TokenRow>, u: UserId)
    requires OneRowPerUser(rows)
    ensures OneRowPerUser(RemoveUser(rows, u))
  {
    FilterKeepsDistinct(rows, NotOwnedBy(u), OwnerOf);
  }
}
