/**
 * The authentication server of `server/hash_server.js`: the class
 * `HashServer` with its user database (username to record) and its session
 * table (session id to session), the password policy, the failed-attempt
 * counter with its timed lockout, and the session lifecycle (create,
 * validate, log out, sweep), statistics and the hash-verification endpoint.
 *
 * The clock (`Date.now()`, in milliseconds), the random seed drawn for a
 * registration, the random context id `splitForServers` draws, and the
 * generated session id are parameters of the operations that use them.
 *
 * The operations are methods of the class `Server` that update its maps in
 * place; the login attempt itself is specified by the pure `AuthStep` on one
 * user record, and the lemmas about `AuthStep` state the lockout behaviour.
 */
module HashServer {
  import opened JsRuntime
  import opened CustomHash

  /** `serverConfig.sessionTimeout`, in seconds. */
  const SessionTimeout: nat := 3600
  /** `serverConfig.maxLoginAttempts`. */
  const MaxLoginAttempts: nat := 5
  /** `serverConfig.lockoutDuration`, in seconds. */
  const LockoutDuration: nat := 900

  // ---------------------------------------------------------------------------
  // Records and responses

  datatype ErrorCode =
    | UserExists | WeakPassword | InvalidCredentials | AccountLocked
    | InvalidSession | SessionExpired | UserNotFound

  /** A user database entry; `null` timestamps are `None`. Times are in milliseconds. */
  datatype UserRecord = UserRecord(
    serverData: ServerHashData, seed: int, createdAt: int,
    lastLogin: Option<int>, loginAttempts: nat, lockedUntil: Option<int>)

  /** A session table entry. Times are in milliseconds. */
  datatype Session = Session(
    userId: JsString, createdAt: int, lastActivity: int, ipAddress: JsString, userAgent: JsString)

  /** The result objects; a field the source leaves out of the object is `None`. */
  datatype RegisterResult = RegisterResult(
    success: bool, message: JsString, errorCode: Option<ErrorCode>,
    userId: Option<JsString>, seed: Option<int>)

  datatype AuthResult = AuthResult(
    success: bool, message: JsString, errorCode: Option<ErrorCode>,
    sessionId: Option<JsString>, userId: Option<JsString>, attemptsRemaining: Option<nat>)

  datatype SessionResult = SessionResult(
    valid: bool, message: Option<JsString>, errorCode: Option<ErrorCode>,
    userId: Option<JsString>, session: Option<Session>)

  datatype LogoutResult = LogoutResult(success: bool, message: JsString, errorCode: Option<ErrorCode>)

  /** `getStats()` without `uptime` and the configuration echo. */
  datatype Stats = Stats(totalUsers: nat, activeSessions: nat, totalSessions: nat, lockedUsers: nat)

  /** The fields `handleHashVerification` reads from its request; an absent field is `None`. */
  datatype VerificationRequest = VerificationRequest(
    username: JsString, password: JsString, seed: Option<int>, sessionId: Option<JsString>)

  datatype VerificationResponse = VerificationResponse(
    status: int, success: bool, message: JsString, errorCode: Option<ErrorCode>, verified: Option<bool>)

  const UserExistsMessage: JsString := Ascii("Username already exists")
  const WeakPasswordMessage: JsString := Ascii("Password does not meet requirements")
  const RegisteredMessage: JsString := Ascii("User registered successfully")
  const InvalidCredentialsMessage: JsString := Ascii("Invalid credentials")
  const AuthenticatedMessage: JsString := Ascii("Authentication successful")
  const LockPrefix: JsString := Ascii("Account locked. Try again in ")
  const LockSuffix: JsString := Ascii(" seconds")
  const InvalidSessionMessage: JsString := Ascii("Invalid session")
  const SessionExpiredMessage: JsString := Ascii("Session expired")
  const LoggedOutMessage: JsString := Ascii("Logged out successfully")
  const UserNotFoundMessage: JsString := Ascii("User not found")
  const HashVerifiedMessage: JsString := Ascii("Hash verified successfully")
  const HashFailedMessage: JsString := Ascii("Hash verification failed")
  const SessionAddress: JsString := Ascii("127.0.0.1")
  const SessionUserAgent: JsString := Ascii("HashServer/1.0")

  // ---------------------------------------------------------------------------
  // Password policy

  /** Some code unit of `p` lies in `lo..hi`: a one-class regular-expression test such as `/[A-Z]/.test(p)`. */
  function ContainsInRange(p: JsString, lo: int, hi: int): (b: bool)
    ensures b <==> exists i | 0 <= i < |p| :: lo <= p[i] <= hi
  {
    if p == [] then false
    else
      var last := p[|p| - 1];
      var found := ContainsInRange(p[..|p| - 1], lo, hi);
      assert found ==> exists i | 0 <= i < |p| :: lo <= p[i] <= hi by {
        if found {
          var i :| 0 <= i < |p| - 1 && lo <= p[..|p| - 1][i] <= hi;
          assert p[i] == p[..|p| - 1][i];
        }
      }
      assert (exists i | 0 <= i < |p| :: lo <= p[i] <= hi) ==> found || lo <= last <= hi by {
        if exists i | 0 <= i < |p| :: lo <= p[i] <= hi {
          var i :| 0 <= i < |p| && lo <= p[i] <= hi;
          if i < |p| - 1 {
            assert p[..|p| - 1][i] == p[i];
          }
        }
      }
      found || lo <= last <= hi
  }

  predicate IsUpper(c: CodeUnit) { 'A' as int <= c <= 'Z' as int }
  predicate IsLower(c: CodeUnit) { 'a' as int <= c <= 'z' as int }

  /**
   * `validatePassword(password)`: at least 8 code units, with an ASCII upper-case
   * letter, an ASCII lower-case letter and an ASCII digit (`\d` without the `u` flag).
   */
  function ValidatePassword(password: JsString): (ok: bool)
    ensures ok <==>
      && |password| >= 8
      && (exists i | 0 <= i < |password| :: IsUpper(password[i]))
      && (exists i | 0 <= i < |password| :: IsLower(password[i]))
      && (exists i | 0 <= i < |password| :: IsDigit(password[i]))
  {
    if |password| < 8 then false
    else
      && ContainsInRange(password, 'A' as int, 'Z' as int)
      && ContainsInRange(password, 'a' as int, 'z' as int)
      && ContainsInRange(password, '0' as int, '9' as int)
  }

  // ---------------------------------------------------------------------------
  // Lockout

  /** `user.lockedUntil && now < user.lockedUntil` (with `now >= 0` a `lockedUntil` of 0 is never in the future). */
  predicate IsLocked(u: UserRecord, now: nat)
  {
    u.lockedUntil.Some? && now < u.lockedUntil.value
  }

  /** `Math.ceil((lockedUntil - now) / 1000)`: the whole seconds left, rounded up. */
  function RemainingSeconds(lockedUntil: int, now: int): (secs: nat)
    requires now < lockedUntil
    ensures (secs - 1) * 1000 < lockedUntil - now <= secs * 1000
  {
    (lockedUntil - now + 999) / 1000
  }

  /** `` `Account locked. Try again in ${remainingTime} seconds` ``. */
  function LockMessage(secs: nat): (msg: JsString)
    ensures |msg| == |LockPrefix| + |Decimal(secs)| + |LockSuffix|
    ensures msg[..|LockPrefix|] == LockPrefix && msg[|msg| - |LockSuffix|..] == LockSuffix
    ensures msg[|LockPrefix|..|msg| - |LockSuffix|] == Decimal(secs)
  {
    var msg := LockPrefix + Decimal(secs) + LockSuffix;
    assert msg[..|LockPrefix|] == LockPrefix;
    assert msg[|msg| - |LockSuffix|..] == LockSuffix;
    assert msg[|LockPrefix|..|msg| - |LockSuffix|] == Decimal(secs);
    msg
  }

  /** The lock message names the remaining seconds exactly: reading its digits back gives them. */
  lemma LockMessageReadsBack(secs: nat)
    ensures var msg := LockMessage(secs);
      DecimalValue(msg[|LockPrefix|..|msg| - |LockSuffix|]) == secs
  {
    DecimalRoundTrip(secs);
  }

  /** What one authentication attempt on a known user came to. */
  datatype Outcome = Locked(seconds: nat) | Accepted | Rejected(attemptsRemaining: nat)

  /** `Math.max(0, maxLoginAttempts - loginAttempts)`. */
  function AttemptsRemaining(loginAttempts: nat): (n: nat)
    ensures n == 0 <==> loginAttempts >= MaxLoginAttempts
    ensures n > 0 ==> n + loginAttempts == MaxLoginAttempts
  {
    if loginAttempts >= MaxLoginAttempts then 0 else MaxLoginAttempts - loginAttempts
  }

  /**
   * One attempt of `authenticateUser` on a known user's record at time `now`,
   * given whether the hash verified: a locked record is returned untouched;
   * a success clears the counter and the lock and stamps `lastLogin`; a
   * failure counts one more attempt and, from the fifth on, locks the
   * account for `lockoutDuration` seconds.
   */
  function AuthStep(u: UserRecord, passwordOk: bool, now: nat): (r: (UserRecord, Outcome))
    ensures r.1.Locked? <==> IsLocked(u, now)
    ensures r.1 == Accepted <==> !IsLocked(u, now) && passwordOk
    ensures r.1.Locked? ==> r.0 == u
    ensures r.0.serverData == u.serverData && r.0.seed == u.seed && r.0.createdAt == u.createdAt
  {
    if IsLocked(u, now) then
      (u, Locked(RemainingSeconds(u.lockedUntil.value, now)))
    else if passwordOk then
      (u.(loginAttempts := 0, lastLogin := Some(now), lockedUntil := None), Accepted)
    else
      var attempts := u.loginAttempts + 1;
      var lockedUntil := if attempts >= MaxLoginAttempts then Some(now + LockoutDuration * 1000) else u.lockedUntil;
      (u.(loginAttempts := attempts, lockedUntil := lockedUntil), Rejected(AttemptsRemaining(attempts)))
  }

  /** A record is only ever locked once the attempt limit has been reached. */
  ghost predicate LockConsistent(u: UserRecord)
  {
    u.lockedUntil.Some? ==> u.loginAttempts >= MaxLoginAttempts
  }

  /** Every attempt keeps a record lock-consistent. */
  lemma AuthStepKeepsLockConsistent(u: UserRecord, passwordOk: bool, now: nat)
    requires LockConsistent(u)
    ensures LockConsistent(AuthStep(u, passwordOk, now).0)
  {
  }

  /** While the account is locked, the password makes no difference and nothing changes. */
  lemma LockedIgnoresPassword(u: UserRecord, now: nat)
    requires IsLocked(u, now)
    ensures AuthStep(u, true, now) == AuthStep(u, false, now)
    ensures AuthStep(u, true, now).0 == u && AuthStep(u, true, now).1.Locked?
  {
  }

  /** An unlocked account with the right password is accepted, and its counter and lock are cleared. */
  lemma SuccessResets(u: UserRecord, now: nat)
    requires !IsLocked(u, now)
    ensures var (v, o) := AuthStep(u, true, now);
      o == Accepted && v.loginAttempts == 0 && v.lockedUntil == None && v.lastLogin == Some(now)
      && v.serverData == u.serverData && v.seed == u.seed && v.createdAt == u.createdAt
  {
  }

  /**
   * The counter is not reset when a lock runs out: once the limit has been
   * reached, the first failure after the lock expires locks the account again
   * at once, with no attempt left.
   */
  lemma RelockAfterExpiry(u: UserRecord, now: nat)
    requires u.loginAttempts >= MaxLoginAttempts && !IsLocked(u, now)
    ensures AuthStep(u, false, now)
         == (u.(loginAttempts := u.loginAttempts + 1, lockedUntil := Some(now + LockoutDuration * 1000)), Rejected(0))
  {
  }

  /** The record after a run of failed attempts at the times `times`. */
  function FailAll(u: UserRecord, times: seq<nat>): UserRecord
  {
    if times == [] then u else AuthStep(FailAll(u, times[..|times| - 1]), false, times[|times| - 1]).0
  }

  /** A record with no failed attempts and no lock, as registration creates it. */
  predicate IsFresh(u: UserRecord)
  {
    u.loginAttempts == 0 && u.lockedUntil == None
  }

  /**
   * From a fresh record, `k` failed attempts (k up to 5) leave the counter at
   * `k`; the account is unlocked before the fifth and locked for 900 seconds
   * from the fifth one's time after it.
   */
  lemma {:induction false} FailuresCount(u: UserRecord, times: seq<nat>)
    requires IsFresh(u) && |times| <= MaxLoginAttempts
    ensures var v := FailAll(u, times);
      v.loginAttempts == |times|
      && v.lockedUntil == (if |times| == MaxLoginAttempts then Some(times[|times| - 1] + LockoutDuration * 1000) else None)
  {
    if times != [] {
      FailuresCount(u, times[..|times| - 1]);
    }
  }

  /**
   * From a fresh record, the `k`-th consecutive failed attempt (k in 1..5)
   * reports `5 - k` attempts remaining: 4, 3, 2, 1, then 0 with the lock.
   */
  lemma NthFailureRemaining(u: UserRecord, times: seq<nat>)
    requires IsFresh(u) && 1 <= |times| <= MaxLoginAttempts
    ensures AuthStep(FailAll(u, times[..|times| - 1]), false, times[|times| - 1]).1
         == Rejected(MaxLoginAttempts - |times|)
  {
    FailuresCount(u, times[..|times| - 1]);
  }

  /**
   * After five failed attempts from a fresh record, any attempt within
   * `lockoutDuration` seconds of the fifth, even with the right password,
   * is refused as locked and changes nothing.
   */
  lemma LockedAfterFiveFailures(u: UserRecord, times: seq<nat>, now: nat)
    requires IsFresh(u) && |times| == MaxLoginAttempts
    requires now < times[|times| - 1] + LockoutDuration * 1000
    ensures var v := FailAll(u, times);
      AuthStep(v, true, now).1.Locked? && AuthStep(v, true, now).0 == v
  {
    FailuresCount(u, times);
  }

  /** The response object for an attempt on a known user. */
  function AuthResponse(o: Outcome, username: JsString, sessionId: JsString): (r: AuthResult)
    ensures r.success <==> o == Accepted
    ensures r.errorCode == Some(AccountLocked) <==> o.Locked?
    ensures r.sessionId.Some? <==> o == Accepted
  {
    match o
    case Locked(secs) => AuthResult(false, LockMessage(secs), Some(AccountLocked), None, None, None)
    case Accepted => AuthResult(true, AuthenticatedMessage, None, Some(sessionId), Some(username), None)
    case Rejected(n) => AuthResult(false, InvalidCredentialsMessage, Some(InvalidCredentials), None, None, Some(n))
  }

  /** The response object for an unknown username. */
  const UnknownUserResult: AuthResult :=
    AuthResult(false, InvalidCredentialsMessage, Some(InvalidCredentials), None, None, None)

  /**
   * An unknown username and a wrong password answer alike in message and
   * error code, neither successful; only the second has `attemptsRemaining`.
   */
  lemma UnknownUserLikeWrongPassword(username: JsString, sessionId: JsString, n: nat)
    ensures var wrong := AuthResponse(Rejected(n), username, sessionId);
      !UnknownUserResult.success && !wrong.success
      && UnknownUserResult.message == wrong.message && UnknownUserResult.errorCode == wrong.errorCode
    // Only the wrong-password answer carries `attemptsRemaining`, so the two objects still differ.
    ensures UnknownUserResult.attemptsRemaining.None?
      && AuthResponse(Rejected(n), username, sessionId).attemptsRemaining == Some(n)
  {
  }

  // ---------------------------------------------------------------------------
  // Sessions

  /** `now - session.lastActivity > sessionTimeout * 1000`. */
  predicate IsExpired(s: Session, now: int)
  {
    now - s.lastActivity > SessionTimeout * 1000
  }

  /** The session `createSession` records for `username` at `now`. */
  function NewSession(username: JsString, now: int): Session
  {
    Session(username, now, now, SessionAddress, SessionUserAgent)
  }

  /** The sessions `cleanupSessions` keeps: those not idle longer than the timeout. */
  function LiveSessions(sessions: map<JsString, Session>, now: int): map<JsString, Session>
  {
    map id | id in sessions && !IsExpired(sessions[id], now) :: sessions[id]
  }

  /** The ids `getStats` counts as active. */
  function ActiveIds(sessions: map<JsString, Session>, now: int): set<JsString>
  {
    set id | id in sessions && !IsExpired(sessions[id], now)
  }

  /** The usernames `getStats` counts as locked. */
  function LockedNames(users: map<JsString, UserRecord>, now: nat): set<JsString>
  {
    set name | name in users && IsLocked(users[name], now)
  }

  /**
   * A sweep and the statistics agree: after `cleanupSessions(now)` the
   * session count is the number of sessions `getStats(now)` called active,
   * and every remaining session validates.
   */
  lemma SweepMatchesStats(sessions: map<JsString, Session>, now: int)
    ensures |LiveSessions(sessions, now)| == |ActiveIds(sessions, now)|
    ensures forall id | id in LiveSessions(sessions, now) :: !IsExpired(LiveSessions(sessions, now)[id], now)
  {
    assert LiveSessions(sessions, now).Keys == ActiveIds(sessions, now);
  }

  // ---------------------------------------------------------------------------
  // Registration

  /** `if (!seed) seed = Math.floor(Math.random() * 0xFFFFFFFF)`: an absent or zero seed is replaced. */
  function ChosenSeed(seed: Option<int>, randomSeed: nat): (s: int)
    ensures seed.Some? && seed.value != 0 ==> s == seed.value
    ensures seed == None || seed == Some(0) ==> s == randomSeed
  {
    if seed.None? || seed.value == 0 then randomSeed else seed.value
  }

  /**
   * The two entry points of the global `CustomHash` namespace that the
   * server calls, as values: `splitForServers` and `verifyHash`, each with
   * the clock (in seconds) and the random context number as arguments.
   */
  datatype HashApi = HashApi(
    splitForServers: (JsString, JsString, int, int, nat) -> ServerHashData,
    verifyHash: (JsString, JsString, int, ServerHashData, int, nat) -> bool)

  /** The `CustomHash` namespace of this model. */
  const CustomHashApi: HashApi := HashApi(SplitForServers, VerifyHash)

  /** The record `registerUser` stores; `splitForServers` reads the clock in whole seconds. */
  function NewUser(api: HashApi, username: JsString, password: JsString, seed: int, now: nat, contextRandom: nat): UserRecord
  {
    UserRecord(api.splitForServers(username, password, seed, now / 1000, contextRandom), seed, now, None, 0, None)
  }

  /** Whether `verifyHash` accepts `password` for the stored record, at time `now`. */
  function PasswordMatches(api: HashApi, username: JsString, password: JsString, u: UserRecord, now: nat, contextRandom: nat): bool
  {
    api.verifyHash(username, password, u.seed, u.serverData, now / 1000, contextRandom)
  }

  /**
   * With the `CustomHash` namespace, a freshly registered user is fresh, the
   * password it was registered with verifies against its record at any later
   * time, and so its first login with that password is accepted.
   */
  lemma RegisteredPasswordMatches(username: JsString, password: JsString, seed: int, now: nat,
                                  contextRandom: nat, later: nat, laterRandom: nat)
    ensures IsFresh(NewUser(CustomHashApi, username, password, seed, now, contextRandom))
    ensures PasswordMatches(CustomHashApi, username, password,
                            NewUser(CustomHashApi, username, password, seed, now, contextRandom), later, laterRandom)
    ensures AuthStep(NewUser(CustomHashApi, username, password, seed, now, contextRandom), true, later).1 == Accepted
  {
    NewUserAccepted(CustomHashApi, username, password, seed, now, contextRandom, later);
    CustomHashVerifiesSplit(username, password, seed, now / 1000, contextRandom, later / 1000, laterRandom);
  }

  /** Whatever the hash, a new record is fresh and unlocked, so a verified password is accepted. */
  lemma NewUserAccepted(api: HashApi, username: JsString, password: JsString, seed: int, now: nat,
                        contextRandom: nat, later: nat)
    ensures IsFresh(NewUser(api, username, password, seed, now, contextRandom))
    ensures AuthStep(NewUser(api, username, password, seed, now, contextRandom), true, later).1 == Accepted
  {
  }

  /** `VerifySplit` through the server's view of the `CustomHash` namespace. */
  lemma CustomHashVerifiesSplit(username: JsString, password: JsString, seed: int,
                                now1: int, random1: nat, now2: int, random2: nat)
    ensures CustomHashApi.verifyHash(username, password, seed,
                                     CustomHashApi.splitForServers(username, password, seed, now1, random1), now2, random2)
  {
    VerifySplit(username, password, seed, now1, random1, now2, random2);
  }

  // ---------------------------------------------------------------------------
  // The server

  class Server {
    var userDatabase: map<JsString, UserRecord>
    var sessions: map<JsString, Session>
    var isRunning: bool
    /** The `CustomHash` namespace the server calls into; the constructor binds it and it never changes. */
    const hashing: HashApi

    /** Every lock is backed by the attempt limit, and every session belongs to a registered user. */
    ghost predicate Valid()
      reads this
    {
      && (forall name | name in userDatabase :: LockConsistent(userDatabase[name]))
      && (forall id | id in sessions :: sessions[id].userId in userDatabase)
    }

    /** `new HashServer()`, which also starts the server. */
    constructor()
      ensures Valid()
      ensures userDatabase == map[] && sessions == map[] && isRunning
      ensures hashing == CustomHashApi
    {
      hashing := CustomHashApi;
      userDatabase := map[];
      sessions := map[];
      isRunning := true;
    }

    /** `registerUser(username, password, seed)`. */
    method RegisterUser(username: JsString, password: JsString, seed: Option<int>,
                        randomSeed: nat, now: nat, contextRandom: nat) returns (r: RegisterResult)
      requires Valid()
      modifies this
      ensures Valid()
      ensures sessions == old(sessions) && isRunning == old(isRunning)
      ensures username in old(userDatabase) ==>
        r == RegisterResult(false, UserExistsMessage, Some(UserExists), None, None)
        && userDatabase == old(userDatabase)
      ensures username !in old(userDatabase) && !ValidatePassword(password) ==>
        r == RegisterResult(false, WeakPasswordMessage, Some(WeakPassword), None, None)
        && userDatabase == old(userDatabase)
      ensures username !in old(userDatabase) && ValidatePassword(password) ==>
        var s := ChosenSeed(seed, randomSeed);
        r == RegisterResult(true, RegisteredMessage, None, Some(username), Some(s))
        && userDatabase == old(userDatabase)[username := NewUser(hashing, username, password, s, now, contextRandom)]
    {
      if username in userDatabase {
        return RegisterResult(false, UserExistsMessage, Some(UserExists), None, None);
      }
      if !ValidatePassword(password) {
        return RegisterResult(false, WeakPasswordMessage, Some(WeakPassword), None, None);
      }
      var s := randomSeed;
      if seed.Some? && seed.value != 0 {
        s := seed.value;
      }
      var serverData := hashing.splitForServers(username, password, s, now / 1000, contextRandom);
      userDatabase := userDatabase[username := UserRecord(serverData, s, now, None, 0, None)];
      r := RegisterResult(true, RegisteredMessage, None, Some(username), Some(s));
    }

    /** `authenticateUser(username, password)`; `sessionId` is the id `generateSessionId` would return. */
    method AuthenticateUser(username: JsString, password: JsString, now: nat, contextRandom: nat,
                            sessionId: JsString) returns (r: AuthResult)
      requires Valid()
      modifies this
      ensures Valid()
      ensures isRunning == old(isRunning)
      ensures username !in old(userDatabase) ==>
        r == UnknownUserResult && userDatabase == old(userDatabase) && sessions == old(sessions)
      ensures username in old(userDatabase) ==>
        var u := old(userDatabase)[username];
        var (v, o) := AuthStep(u, PasswordMatches(hashing, username, password, u, now, contextRandom), now);
        && userDatabase == old(userDatabase)[username := v]
        && r == AuthResponse(o, username, sessionId)
        && sessions == (if o == Accepted then old(sessions)[sessionId := NewSession(username, now)] else old(sessions))
      // From the invariant: only an account that used up its attempts is ever refused as locked.
      ensures r.errorCode == Some(AccountLocked) ==>
        username in old(userDatabase) && old(userDatabase)[username].loginAttempts >= MaxLoginAttempts
    {
      if username !in userDatabase {
        return UnknownUserResult;
      }
      var user := userDatabase[username];
      if IsLocked(user, now) {
        var remaining := RemainingSeconds(user.lockedUntil.value, now);
        return AuthResult(false, LockMessage(remaining), Some(AccountLocked), None, None, None);
      }
      var isValid := hashing.verifyHash(username, password, user.seed, user.serverData, now / 1000, contextRandom);
      if isValid {
        user := user.(loginAttempts := 0, lastLogin := Some(now), lockedUntil := None);
        userDatabase := userDatabase[username := user];
        var id := CreateSession(username, sessionId, now);
        r := AuthResult(true, AuthenticatedMessage, None, Some(id), Some(username), None);
      } else {
        user := user.(loginAttempts := user.loginAttempts + 1);
        if user.loginAttempts >= MaxLoginAttempts {
          user := user.(lockedUntil := Some(now + LockoutDuration * 1000));
        }
        userDatabase := userDatabase[username := user];
        r := AuthResult(false, InvalidCredentialsMessage, Some(InvalidCredentials), None, None, Some(AttemptsRemaining(user.loginAttempts)));
      }
    }

    /** `createSession(username)`, with the generated id supplied; an existing entry under that id is overwritten. */
    method CreateSession(username: JsString, sessionId: JsString, now: int) returns (id: JsString)
      modifies this
      ensures id == sessionId
      ensures sessions == old(sessions)[sessionId := NewSession(username, now)]
      ensures userDatabase == old(userDatabase) && isRunning == old(isRunning)
      ensures old(Valid()) && username in userDatabase ==> Valid()
    {
      sessions := sessions[sessionId := Session(username, now, now, SessionAddress, SessionUserAgent)];
      id := sessionId;
    }

    /** `validateSession(sessionId)` at time `now`: the boundary `now - lastActivity == timeout` is still valid. */
    method ValidateSession(sessionId: JsString, now: int) returns (r: SessionResult)
      requires Valid()
      modifies this
      ensures Valid()
      ensures userDatabase == old(userDatabase) && isRunning == old(isRunning)
      ensures sessionId !in old(sessions) ==>
        r == SessionResult(false, Some(InvalidSessionMessage), Some(InvalidSession), None, None)
        && sessions == old(sessions)
      ensures sessionId in old(sessions) && IsExpired(old(sessions)[sessionId], now) ==>
        r == SessionResult(false, Some(SessionExpiredMessage), Some(SessionExpired), None, None)
        && sessions == old(sessions) - {sessionId}
      ensures sessionId in old(sessions) && !IsExpired(old(sessions)[sessionId], now) ==>
        var s := old(sessions)[sessionId].(lastActivity := now);
        r == SessionResult(true, None, None, Some(s.userId), Some(s))
        && sessions == old(sessions)[sessionId := s]
      // From the invariant: a valid session always names a registered user.
      ensures r.valid ==> r.userId.Some? && r.userId.value in userDatabase
    {
      if sessionId !in sessions {
        return SessionResult(false, Some(InvalidSessionMessage), Some(InvalidSession), None, None);
      }
      var session := sessions[sessionId];
      if now - session.lastActivity > SessionTimeout * 1000 {
        sessions := sessions - {sessionId};
        return SessionResult(false, Some(SessionExpiredMessage), Some(SessionExpired), None, None);
      }
      session := session.(lastActivity := now);
      sessions := sessions[sessionId := session];
      r := SessionResult(true, None, None, Some(session.userId), Some(session));
    }

    /** `logout(sessionId)`: removes exactly that session, or reports it unknown. */
    method Logout(sessionId: JsString) returns (r: LogoutResult)
      requires Valid()
      modifies this
      ensures Valid()
      ensures userDatabase == old(userDatabase) && isRunning == old(isRunning)
      ensures sessionId in old(sessions) ==>
        r == LogoutResult(true, LoggedOutMessage, None) && sessions == old(sessions) - {sessionId}
      ensures sessionId !in old(sessions) ==>
        r == LogoutResult(false, InvalidSessionMessage, Some(InvalidSession)) && sessions == old(sessions)
    {
      if sessionId in sessions {
        sessions := sessions - {sessionId};
        return LogoutResult(true, LoggedOutMessage, None);
      }
      r := LogoutResult(false, InvalidSessionMessage, Some(InvalidSession));
    }

    /**
     * `cleanupSessions()` at time `now`: deletes every session idle longer
     * than the timeout and keeps the others as they were; `cleaned` counts
     * the deletions.
     */
    method CleanupSessions(now: int) returns (cleaned: nat)
      requires Valid()
      modifies this
      ensures Valid()
      ensures userDatabase == old(userDatabase) && isRunning == old(isRunning)
      ensures sessions == LiveSessions(old(sessions), now)
      ensures cleaned + |sessions| == |old(sessions)|
    {
      ghost var start := sessions;
      var remaining := sessions.Keys;
      cleaned := 0;
      while remaining != {}
        invariant remaining <= start.Keys
        invariant sessions == PartlySwept(start, remaining, now)
        invariant cleaned + |sessions| == |start|
        invariant userDatabase == old(userDatabase) && isRunning == old(isRunning)
        decreases |remaining|
      {
        var id :| id in remaining;
        SweepStep(start, remaining, id, now);
        if now - sessions[id].lastActivity > SessionTimeout * 1000 {
          RemoveCount(sessions, id);
          sessions := sessions - {id};
          cleaned := cleaned + 1;
        }
        remaining := remaining - {id};
      }
      assert PartlySwept(start, {}, now) == LiveSessions(start, now);
    }

    /** `getStats()` at time `now`; changes nothing. */
    method GetStats(now: nat) returns (s: Stats)
      ensures s.totalUsers == |userDatabase| && s.totalSessions == |sessions|
      ensures s.activeSessions == |ActiveIds(sessions, now)|
      ensures s.lockedUsers == |LockedNames(userDatabase, now)|
    {
      var active := CountActiveSessions(now);
      var locked := CountLockedUsers(now);
      s := Stats(|userDatabase|, active, |sessions|, locked);
    }

    /** The first loop of `getStats`: sessions idle no longer than the timeout. */
    method CountActiveSessions(now: nat) returns (active: nat)
      ensures active == |ActiveIds(sessions, now)|
    {
      active := 0;
      var remaining := sessions.Keys;
      while remaining != {}
        invariant remaining <= sessions.Keys
        invariant active == |set id | id in sessions && id !in remaining && !IsExpired(sessions[id], now)|
        decreases |remaining|
      {
        var id :| id in remaining;
        ghost var before := set k | k in sessions && k !in remaining && !IsExpired(sessions[k], now);
        ghost var after := set k | k in sessions && k !in remaining - {id} && !IsExpired(sessions[k], now);
        if now - sessions[id].lastActivity <= SessionTimeout * 1000 {
          assert after == before + {id};
          active := active + 1;
        } else {
          assert after == before;
        }
        remaining := remaining - {id};
      }
      assert ActiveIds(sessions, now) == set id | id in sessions && id !in remaining && !IsExpired(sessions[id], now);
    }

    /** The second loop of `getStats`: users whose lock is still running. */
    method CountLockedUsers(now: nat) returns (locked: nat)
      ensures locked == |LockedNames(userDatabase, now)|
    {
      locked := 0;
      var names := userDatabase.Keys;
      while names != {}
        invariant names <= userDatabase.Keys
        invariant locked == |set n | n in userDatabase && n !in names && IsLocked(userDatabase[n], now)|
        decreases |names|
      {
        var name :| name in names;
        ghost var before := set k | k in userDatabase && k !in names && IsLocked(userDatabase[k], now);
        ghost var after := set k | k in userDatabase && k !in names - {name} && IsLocked(userDatabase[k], now);
        var user := userDatabase[name];
        if user.lockedUntil.Some? && now < user.lockedUntil.value {
          assert after == before + {name};
          locked := locked + 1;
        } else {
          assert after == before;
        }
        names := names - {name};
      }
      assert LockedNames(userDatabase, now) == set n | n in userDatabase && n !in names && IsLocked(userDatabase[n], now);
    }

    /**
     * `handleHashVerification(request)` at time `now`: a truthy session id
     * must validate (else 401 with the session's error), the user must exist
     * (else 404), and then 200 with whether the hash verifies under the
     * request's seed, or the stored seed when the request's is absent or 0.
     */
    method HandleHashVerification(request: VerificationRequest, now: nat, contextRandom: nat)
      returns (resp: VerificationResponse)
      requires Valid()
      modifies this
      ensures Valid()
      ensures userDatabase == old(userDatabase) && isRunning == old(isRunning)
      ensures var checked := request.sessionId.Some? && request.sessionId.value != [];
        var id := if checked then request.sessionId.value else [];
        var sessionOk := !checked || (id in old(sessions) && !IsExpired(old(sessions)[id], now));
        && (checked && id !in old(sessions) ==>
              resp == VerificationResponse(401, false, InvalidSessionMessage, Some(InvalidSession), None))
        && (checked && id in old(sessions) && IsExpired(old(sessions)[id], now) ==>
              resp == VerificationResponse(401, false, SessionExpiredMessage, Some(SessionExpired), None))
        && (sessionOk && request.username !in userDatabase ==>
              resp == VerificationResponse(404, false, UserNotFoundMessage, Some(UserNotFound), None))
        && (sessionOk && request.username in userDatabase ==>
              var u := userDatabase[request.username];
              var seed := if request.seed.None? || request.seed.value == 0 then u.seed else request.seed.value;
              var ok := hashing.verifyHash(request.username, request.password, seed, u.serverData, now / 1000, contextRandom);
              resp == VerificationResponse(200, true, if ok then HashVerifiedMessage else HashFailedMessage, None, Some(ok)))
      ensures var checked := request.sessionId.Some? && request.sessionId.value != [];
        var id := if checked then request.sessionId.value else [];
        && (!checked || id !in old(sessions) ==> sessions == old(sessions))
        && (checked && id in old(sessions) && IsExpired(old(sessions)[id], now) ==> sessions == old(sessions) - {id})
        && (checked && id in old(sessions) && !IsExpired(old(sessions)[id], now) ==>
              sessions == old(sessions)[id := old(sessions)[id].(lastActivity := now)])
    {
      if request.sessionId.Some? && request.sessionId.value != [] {
        var validation := ValidateSession(request.sessionId.value, now);
        if !validation.valid {
          return VerificationResponse(401, false, validation.message.value, validation.errorCode, None);
        }
      }
      if request.username !in userDatabase {
        return VerificationResponse(404, false, UserNotFoundMessage, Some(UserNotFound), None);
      }
      var user := userDatabase[request.username];
      var seed := if request.seed.None? || request.seed.value == 0 then user.seed else request.seed.value;
      var isValid := hashing.verifyHash(request.username, request.password, seed, user.serverData, now / 1000, contextRandom);
      resp := VerificationResponse(200, true, if isValid then HashVerifiedMessage else HashFailedMessage, None, Some(isValid));
    }

    /** `shutdown()`: clears every session and stops; the user database stays. */
    method Shutdown()
      requires Valid()
      modifies this
      ensures Valid()
      ensures sessions == map[] && !isRunning && userDatabase == old(userDatabase)
    {
      sessions := map[];
      isRunning := false;
    }
  }

  /** The table while a sweep is under way: the ids in `remaining` are not yet looked at. */
  function PartlySwept(start: map<JsString, Session>, remaining: set<JsString>, now: int): map<JsString, Session>
  {
    map id | id in start && (id in remaining || !IsExpired(start[id], now)) :: start[id]
  }

  /** Looking at one more id drops it from the table exactly when it has expired. */
  lemma SweepStep(start: map<JsString, Session>, remaining: set<JsString>, id: JsString, now: int)
    requires id in remaining && remaining <= start.Keys
    ensures id in PartlySwept(start, remaining, now) && PartlySwept(start, remaining, now)[id] == start[id]
    ensures PartlySwept(start, remaining - {id}, now)
         == if IsExpired(start[id], now) then PartlySwept(start, remaining, now) - {id} else PartlySwept(start, remaining, now)
  {
  }

  /** Removing a present key shrinks a map by one. */
  lemma RemoveCount(m: map<JsString, Session>, k: JsString)
    requires k in m
    ensures |m - {k}| == |m| - 1
  {
    assert (m - {k}).Keys == m.Keys - {k};
  }
}
