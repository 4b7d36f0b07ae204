/**
 * The password-reset service: a store holding the token table, the user
 * table and the clock, with one method per operation of the service.
 *
 * What the environment decides is passed in as a parameter: whether a SQL
 * statement raises (`...Ok`), whether an e-mail was delivered, which user
 * the directory returns when several share an e-mail address, and the
 * characters the secure random source picks.
 */
module ResetService {
  import opened Wrappers
  import opened TokenTable
  import Validators

  /** `token_expiry_hours = 1`, in seconds. */
  const TokenExpirySeconds: int := 3600
  const TokenLength: nat := 32
  const MinPasswordLength: nat := 8

  /**
   * The reset's own length check refuses exactly the passwords the
   * registration validator refuses.
   */
  lemma ResetLengthRuleIsValidatorRule(password: string)
    ensures |password| < MinPasswordLength <==> !Validators.ValidatePassword(password)
  {
  }

  const GenericRequestMessage: string := "If the email exists in our system, you will receive a password reset link."
  const StoreFailedMessage: string := "Failed to process password reset request"
  const SendFailedMessage: string := "Failed to send password reset email"
  const InternalErrorMessage: string := "Internal server error"
  const InvalidTokenMessage: string := "Invalid or expired reset token"
  const ShortPasswordMessage: string := "Password must be at least 8 characters long"
  const UpdateFailedMessage: string := "Failed to update password"
  const ResetDoneMessage: string := "Password has been reset successfully"

  /** The dictionary a request returns: `{"success": True, "message": m}` or `{"error": m}`. */
  datatype Reply = Succeeded(message: string) | Failed(message: string)

  /** The dictionary of the read-only check: `{"valid": True, "email": e}` or `{"valid": False}`. */
  datatype TokenStatus = ValidToken(email: string) | InvalidToken

  /** A character of `string.ascii_letters + string.digits`. */
  predicate IsTokenChar(c: char) {
    'a' <= c <= 'z' || 'A' <= c <= 'Z' || '0' <= c <= '9'
  }

  predicate IsResetToken(t: string) {
    |t| == TokenLength && forall i | 0 <= i < |t| :: IsTokenChar(t[i])
  }

  predicate EmailRegistered(users: map<UserId, UserRecord>, email: string) {
    exists id | id in users :: users[id].email == email
  }

  /**
   * Draws 32 characters, one at a time, from the 62 letters and digits; the
   * secure random choice is a nondeterministic pick.
   */
  method GenerateResetToken() returns (token: string)
    ensures IsResetToken(token)
  {
    token := "";
    for n := 0 to TokenLength
      invariant |token| == n
      invariant forall i | 0 <= i < n :: IsTokenChar(token[i])
    {
      assert IsTokenChar('a');
      var c: char :| IsTokenChar(c);
      token := token + [c];
    }
  }

  class PasswordResetService {
    /** The `password_reset_tokens` table. */
    var tokens: seq<TokenRow>
    /** The `users` table. */
    var users: map<UserId, UserRecord>
    /** `datetime.utcnow()`, in seconds. */
    var now: int
    /** werkzeug's `generate_password_hash`, left uninterpreted. */
    const hashPassword: string -> string

    /** The schema's UNIQUE(token) constraint. */
    ghost predicate Valid()
      reads this
    {
      UniqueTokens(tokens)
    }

    constructor (tokens: seq<TokenRow>, users: map<UserId, UserRecord>, now: int, hashPassword: string -> string)
      requires UniqueTokens(tokens)
      ensures Valid()
      ensures this.tokens == tokens && this.users == users && this.now == now
      ensures this.hashPassword == hashPassword
    {
      this.tokens := tokens;
      this.users := users;
      this.now := now;
      this.hashPassword := hashPassword;
    }

    /** `User.find_by_email`: some user with exactly this e-mail address, if any. */
    method FindUserByEmail(email: string) returns (user: Option<User>)
      ensures user.Some? <==> EmailRegistered(users, email)
      ensures user.Some? ==>
        user.value.id in users && users[user.value.id].email == email
        && user.value == User(user.value.id, users[user.value.id].name, email)
    {
      if id :| id in users && users[id].email == email {
        user := Some(User(id, users[id].name, users[id].email));
      } else {
        user := None;
      }
    }

    /**
     * Deletes every row of the user, then inserts the new unused row that
     * expires an hour from now.  The two statements run outside a
     * transaction: when the INSERT fails (a storage error, or the token is
     * already in the table) the user's earlier rows stay deleted.
     */
    method StoreResetToken(userId: UserId, token: string, deleteOk: bool, insertOk: bool) returns (stored: bool)
      requires Valid()
      modifies this`tokens
      ensures Valid()
      ensures stored == (deleteOk && InsertAccepted(old(tokens), userId, token, insertOk))
      ensures tokens == StoreOutcome(old(tokens), userId, token, now + TokenExpirySeconds, deleteOk, insertOk)
      ensures stored && userId in users ==>
        Lookup(tokens, users, token, now) == Some(User(userId, users[userId].name, users[userId].email))
      ensures OneRowPerUser(old(tokens)) ==> OneRowPerUser(tokens)
    {
      var expiresAt := now + TokenExpirySeconds;
      if !deleteOk {
        return false;
      }
      IssueKeepsWellFormed(tokens, userId, token, expiresAt);
      var kept := RemoveUser(tokens, userId);
      stored := InsertAccepted(tokens, userId, token, insertOk);
      if stored {
        IssuedTokenLifetime(tokens, users, userId, token, expiresAt, now);
        tokens := kept + [TokenRow(userId, token, expiresAt, false)];
      } else {
        tokens := kept;
      }
    }

    /** Sets `used` on every row with this token; the UPDATE may raise. */
    method MarkTokenAsUsed(token: string, updateOk: bool) returns (marked: bool)
      requires Valid()
      modifies this`tokens
      ensures Valid()
      ensures marked == updateOk
      ensures tokens == if updateOk then MarkUsed(old(tokens), token) else old(tokens)
      ensures updateOk ==> Lookup(tokens, users, token, now) == None
      ensures OneRowPerUser(old(tokens)) ==> OneRowPerUser(tokens)
    {
      MarkUsedKeepsWellFormed(tokens, token);
      if updateOk {
        tokens := MarkUsed(tokens, token);
        MarkUsedRejects(old(tokens), users, token, now);
      }
      marked := updateOk;
    }

    /** Replaces the stored hash of the user; an id with no user changes nothing. */
    method UpdateUserPassword(userId: UserId, hashedPassword: string, updateOk: bool) returns (updated: bool)
      requires Valid()
      modifies this`users
      ensures Valid()
      ensures updated == updateOk
      ensures users == if updateOk then SetPasswordHash(old(users), userId, hashedPassword) else old(users)
      ensures forall t :: Lookup(tokens, users, t, now) == Lookup(tokens, old(users), t, now)
    {
      if updateOk {
        users := SetPasswordHash(users, userId, hashedPassword);
        forall t ensures Lookup(tokens, users, t, now) == Lookup(tokens, old(users), t, now) {
          LookupIgnoresPasswordHash(tokens, old(users), userId, hashedPassword, t, now);
        }
      }
      updated := updateOk;
    }

    /**
     * Counts, then deletes, the rows that are used or past their expiry;
     * a failing statement makes it report 0 and delete nothing.
     */
    method CleanupExpiredTokens(storageOk: bool) returns (count: nat)
      requires Valid()
      modifies this`tokens
      ensures Valid()
      ensures storageOk ==> tokens == Sweep(old(tokens), now) && count == CountStale(old(tokens), now)
      ensures storageOk ==> count == |old(tokens)| - |tokens|
      ensures !storageOk ==> count == 0 && tokens == old(tokens)
      ensures forall t :: Lookup(tokens, users, t, now) == Lookup(old(tokens), users, t, now)
      ensures OneRowPerUser(old(tokens)) ==> OneRowPerUser(tokens)
    {
      if !storageOk {
        return 0;
      }
      ghost var before := tokens;
      count := CountStale(tokens, now);
      tokens := Sweep(tokens, now);
      SweepCount(before, now);
      FilterKeepsDistinct(before, LiveAt(now), TokenOf);
      forall t ensures Lookup(tokens, users, t, now) == Lookup(before, users, t, now) {
        SweepKeepsLookup(before, users, t, now);
      }
      if OneRowPerUser(before) {
        SweepKeepsOneRowPerUser(before, now);
      }
    }

    /**
     * The read-only check: valid, with the user's e-mail, exactly when the
     * token stands for a user now.  It modifies nothing.
     */
    method CheckResetToken(token: string) returns (status: TokenStatus)
      ensures status.ValidToken? <==> Lookup(tokens, users, token, now).Some?
      ensures status.ValidToken? ==> status.email == Lookup(tokens, users, token, now).value.email
      ensures status.ValidToken? ==> exists row | row in tokens ::
        row.token == token && !row.used && now <= row.expiresAt
        && row.userId in users && users[row.userId].email == status.email
    {
      var found := Lookup(tokens, users, token, now);
      if found.Some? {
        status := ValidToken(found.value.email);
      } else {
        status := InvalidToken;
      }
    }

    /**
     * Starts a reset for an e-mail address.  An address with no user (or
     * whose user has id 0) gets the same success reply as a user whose
     * link was sent, and no row is written.  A failed delivery reports an
     * error but the stored token stays valid.
     */
    method RequestPasswordReset(email: string, directoryOk: bool, deleteOk: bool, insertOk: bool, delivered: bool)
      returns (reply: Reply, ghost user: Option<User>, ghost token: string)
      requires Valid()
      modifies this`tokens
      ensures Valid()
      ensures OneRowPerUser(old(tokens)) ==> OneRowPerUser(tokens)
      ensures !directoryOk ==> reply == Failed(InternalErrorMessage) && user == None && tokens == old(tokens)
      ensures directoryOk ==> (user.Some? <==> EmailRegistered(users, email))
      ensures user.Some? ==>
        user.value.id in users && users[user.value.id].email == email
        && user.value == User(user.value.id, users[user.value.id].name, email)
      ensures directoryOk && !EmailRegistered(users, email) ==>
        reply == Succeeded(GenericRequestMessage) && tokens == old(tokens)
      ensures directoryOk && (user.None? || user.value.id == 0) ==>
        reply == Succeeded(GenericRequestMessage) && tokens == old(tokens)
      ensures user.Some? && user.value.id != 0 ==> IsResetToken(token)
      ensures user.Some? && user.value.id != 0 ==>
        tokens == StoreOutcome(old(tokens), user.value.id, token, now + TokenExpirySeconds, deleteOk, insertOk)
      ensures user.Some? && user.value.id != 0 ==>
        reply == (if !(deleteOk && InsertAccepted(old(tokens), user.value.id, token, insertOk)) then Failed(StoreFailedMessage)
                  else if delivered then Succeeded(GenericRequestMessage)
                  else Failed(SendFailedMessage))
      ensures user.Some? && user.value.id != 0 && deleteOk && InsertAccepted(old(tokens), user.value.id, token, insertOk) ==>
        Lookup(tokens, users, token, now) == Some(user.value)
    {
      token := "";
      user := None;
      if !directoryOk {
        return Failed(InternalErrorMessage), user, token;
      }
      var found := FindUserByEmail(email);
      user := found;
      if found.None? || found.value.id == 0 {
        return Succeeded(GenericRequestMessage), user, token;
      }
      var id := found.value.id;
      var t := GenerateResetToken();
      token := t;
      var stored := StoreResetToken(id, t, deleteOk, insertOk);
      assert stored == (deleteOk && InsertAccepted(old(tokens), id, t, insertOk));
      assert stored ==> Lookup(tokens, users, t, now) == Some(found.value);
      if !stored {
        return Failed(StoreFailedMessage), user, token;
      }
      if delivered {
        reply := Succeeded(GenericRequestMessage);
      } else {
        reply := Failed(SendFailedMessage);
      }
    }

    /**
     * Completes a reset: the token is checked first, then the password
     * length, then the hash is stored, then the token is marked used.  Only
     * the last two change anything; a failed hash update leaves the token
     * unused, and the outcome of marking is ignored.
     */
    method ResetPassword(token: string, newPassword: string, updateOk: bool, markOk: bool) returns (reply: Reply)
      requires Valid()
      modifies this`tokens, this`users
      ensures Valid()
      ensures OneRowPerUser(old(tokens)) ==> OneRowPerUser(tokens)
      ensures
        var found := Lookup(old(tokens), old(users), token, now);
        if found.None? || found.value.email == "" || found.value.id == 0 then
          reply == Failed(InvalidTokenMessage) && tokens == old(tokens) && users == old(users)
        else if |newPassword| < MinPasswordLength then
          reply == Failed(ShortPasswordMessage) && tokens == old(tokens) && users == old(users)
        else if !updateOk then
          reply == Failed(UpdateFailedMessage) && tokens == old(tokens) && users == old(users)
        else
          && reply == Succeeded(ResetDoneMessage)
          && users == SetPasswordHash(old(users), found.value.id, hashPassword(newPassword))
          && tokens == (if markOk then MarkUsed(old(tokens), token) else old(tokens))
      ensures reply.Succeeded? && markOk ==> Lookup(tokens, users, token, now) == None
    {
      var found := Lookup(tokens, users, token, now);
      if found.None? || found.value.email == "" || found.value.id == 0 {
        return Failed(InvalidTokenMessage);
      }
      if |newPassword| < MinPasswordLength {
        return Failed(ShortPasswordMessage);
      }
      var updated := UpdateUserPassword(found.value.id, hashPassword(newPassword), updateOk);
      if !updated {
        return Failed(UpdateFailedMessage);
      }
      var marked := MarkTokenAsUsed(token, markOk);
      reply := Succeeded(ResetDoneMessage);
    }
  }

  /**
   * A token works once: when a reset succeeds and marking the token goes
   * through, a second reset with the same token is refused and changes
   * nothing, whatever the new password and the storage outcomes.
   */
  method ResetTwice(service: PasswordResetService, token: string, first: string, second: string,
                    firstUpdateOk: bool, secondUpdateOk: bool, secondMarkOk: bool)
    returns (firstReply: Reply, secondReply: Reply)
    requires service.Valid()
    modifies service`tokens, service`users
    ensures service.Valid()
    ensures firstReply.Succeeded? ==> secondReply == Failed(InvalidTokenMessage)
    ensures firstReply.Succeeded? ==>
      var found := Lookup(old(service.tokens), old(service.users), token, service.now);
      && found.Some?
      && service.tokens == MarkUsed(old(service.tokens), token)
      && service.users == SetPasswordHash(old(service.users), found.value.id, service.hashPassword(first))
  {
    firstReply := service.ResetPassword(token, first, firstUpdateOk, true);
    secondReply := service.ResetPassword(token, second, secondUpdateOk, secondMarkOk);
  }

  /**
   * The replay the code allows: the outcome of marking the token used is
   * ignored, so when that UPDATE fails the reset still reports success, the
   * token stays unused, and the same token resets the password again.
   */
  method ReplayAfterFailedMark(service: PasswordResetService, token: string, first: string, second: string,
                               secondMarkOk: bool)
    returns (firstReply: Reply, secondReply: Reply)
    requires service.Valid()
    modifies service`tokens, service`users
    ensures service.Valid()
    ensures firstReply.Succeeded? && !secondMarkOk ==> service.tokens == old(service.tokens)
    ensures firstReply.Succeeded? && |second| >= MinPasswordLength ==> secondReply == Succeeded(ResetDoneMessage)
  {
    ghost var found := Lookup(service.tokens, service.users, token, service.now);
    firstReply := service.ResetPassword(token, first, true, false);
    if firstReply.Succeeded? {
      LookupIgnoresPasswordHash(old(service.tokens), old(service.users), found.value.id,
                                service.hashPassword(first), token, service.now);
    }
    secondReply := service.ResetPassword(token, second, true, secondMarkOk);
  }
}
