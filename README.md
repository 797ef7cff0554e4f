# SecureAuth-System core in Dafny

A Dafny model of the deterministic core of SecureAuth-System. It covers three server files:

- **`server/custom_hash.js`** (module `CustomHash`, file `custom_hash.dfy`).
  - `hashString` is the 32-bit avalanche hash over UTF-16 code units.
  - `splitHashBlocks` and `generateHash128` build the 128-bit fingerprint of `username + ":" + password`.
  - `splitForServers` carves the fingerprint into five fragments, A to E, each with its per-server metadata record.
  - `verifyHash` recomputes the split and requires all five fragments to match.
- **`server/rand.js`**, the `SlightlyHardRNG` half (module `Rand`, file `rand.dfy`).
  - The word mixers `mix32` and `splitmix64`, and `rotl32`.
  - The three-round keyed network `Feistel3`: its constructor, `F` and `permute`.
  - The counter-mode class `SlightlyHardRNG`: its constructor and `next`.
- **`server/hash_server.js`**, class `HashServer` (module `HashServer`, file `hash_server.dfy`).
  - The user database and the session table.
  - The password policy.
  - Registration.
  - Authentication, with the failed-attempt counter and the timed lockout.
  - The session lifecycle: create, validate, log out, sweep.
  - Statistics, the hash-verification endpoint, and shutdown.

The module `JsRuntime` (`js_runtime.dfy`) holds the pieces of JavaScript value semantics the code relies on:

- ToUint32 (`>>> 0`) and the signed result of the bitwise operators.
- The IEEE-754 double product behind every `(a * C) >>> 0`. It is rounded to 53 significant bits, ties to even, and then reduced modulo 2^32. The model does not assume the product is an exact modular product.
- Strings as sequences of UTF-16 code units.
- The decimal text of `i.toString()`.

How each part is modelled:

- 32-bit words are `bv32` bit patterns.
- JavaScript numbers that are not words stay `int`.
- The loops of the source are methods with loop invariants, proved against specification functions:
  - `HashString` against `HashOf`;
  - `SplitHashBlocks` against `BlockHash`;
  - `GenerateHash128` against `Fingerprint128`;
  - the loops of `CleanupSessions` and `GetStats` against the map and set comprehensions `LiveSessions`, `ActiveIds` and `LockedNames`.
- `SlightlyHardRNG` is a class whose `Next` updates the counter in place.
- `HashServer` is the class `Server`, whose methods update `userDatabase` and `sessions` in place.
- The effect of one login attempt on a user record is the pure function `AuthStep`, and lemmas about it state the lockout rules.

Inputs from the environment are parameters:

- the clock (`Date.now()`, as `now` in milliseconds);
- the random seed drawn at registration;
- the random context number that `splitForServers` stores for server C;
- the id `generateSessionId` would return.

The server calls `splitForServers` and `verifyHash` through the field `hashing`. The constructor binds it to this model's `CustomHash` functions (`CustomHashApi`), and `RegisteredPasswordMatches` states what that gives a freshly registered user.

`Server.Valid()` is the class invariant. It says:

- every lock in the database is backed by a counter at the attempt limit;
- every session belongs to a registered user.

The constructor establishes it, and every public method other than `CreateSession` keeps it. `CreateSession` keeps it when the user is registered, which holds at its one caller, `AuthenticateUser`.

Two contracts rely on it:

- `AuthenticateUser` answers ACCOUNT_LOCKED only for an account that has used up its attempts.
- `ValidateSession` returns only users that are registered.

Where the source and its design description disagree, the model follows the source:

- **Server C's random session number.** The design suggests taking it from the generator. The source uses `Math.random`, so it is a parameter here.
- **Which counter a login updates.** The design describes a failed-attempt counter that is reset on success. The source updates the record's `loginAttempts`. It never updates the `failedAttempts` field stored in fragment B, which stays 0.
- **What happens when a lock expires.** The design says a lock is cleared once it expires. The source leaves the counter at or above the limit, so the first failure after expiry locks the account again at once (`RelockAfterExpiry`).
- **Whether an unknown user and a wrong password look alike.** The design says the caller cannot tell them apart. In the source they share the message and error code. Only the wrong-password answer carries `attemptsRemaining`, though, and ACCOUNT_LOCKED answers only for existing names (`UnknownUserLikeWrongPassword` states both).
- **Whether `permute` is a permutation.** The design calls its output a bijective permutation of the counter. The source's `permute` is not a clean Feistel network: L keeps all 32 bits of the input, and the final join overlaps in the high half. The model states its exact closed form and claims no bijectivity.

## Model

| member | source | states |
|---|---|---|
| JsRuntime.ToUint32 | SecureAuth-System/server/custom_hash.js:109 | `>>> 0` on an integral number, reduced modulo 2^32; no contract of its own, its properties are `ToUint32Periodic`, `Uint32RoundTrip` and `Int32RoundTrip` |
| JsRuntime.JsMulU32 | SecureAuth-System/server/custom_hash.js:115 | `(a * C) >>> 0` as a double product: round to 53 significant bits, ties to even, keep the sign, reduce modulo 2^32; no contract of its own, `JsMulU32Exact` gives its exact range |
| JsRuntime.ToUint32Periodic | SecureAuth-System/server/custom_hash.js:109 | `>>> 0` sees a number only modulo 2^32 |
| JsRuntime.Uint32RoundTrip | SecureAuth-System/server/rand.js:43 | truncating the unsigned reading of a word again gives the same word |
| JsRuntime.Int32RoundTrip | SecureAuth-System/server/rand.js:58-60 | the signed number `^`/`&` leave, truncated with `>>> 0`, is the same word |
| JsRuntime.Int32ValueZero | SecureAuth-System/server/rand.js:113 | the signed reading of a word is 0 exactly for the zero word |
| JsRuntime.JsMulU32Exact | SecureAuth-System/server/custom_hash.js:115 | while the product is below 2^53 in magnitude the double product `(a * C) >>> 0` is the exact product modulo 2^32 |
| JsRuntime.AndBelowMask | SecureAuth-System/server/rand.js:112 | a word masked with `& mask` is at most the mask |
| JsRuntime.HalvesBounded | SecureAuth-System/server/custom_hash.js:200-206 | `w & 0xFFFF` and `(w >>> 16) & 0xFFFF` are below 2^16 |
| JsRuntime.JoinHalvesIff | SecureAuth-System/server/custom_hash.js:200-206 | for 16-bit halves, joining `hi` above `lo` gives `w` exactly when they are the high and low halves of `w` |
| JsRuntime.JoinHalvesSum | SecureAuth-System/server/custom_hash.js:200-206 | joining 16-bit halves is `hi * 65536 + lo` |
| JsRuntime.Decimal | SecureAuth-System/server/custom_hash.js:142 | `i.toString()` is a non-empty string of digits without a leading zero |
| JsRuntime.DecimalRoundTrip | SecureAuth-System/server/custom_hash.js:142 | reading the decimal text back gives the number, so distinct block indices give distinct suffixes |
| CustomHash.NewServerHashData | SecureAuth-System/server/custom_hash.js:90-98 | a new record has all five fragments 0, integrity not yet checked, and every timestamp the current second |
| CustomHash.AbsorbUnit | SecureAuth-System/server/custom_hash.js:113-117 | one loop pass of `hashString`; no contract of its own, `HashString` and `AbsorbConcat` carry it |
| CustomHash.Finalize | SecureAuth-System/server/custom_hash.js:121-125 | the three-step finaliser; no contract of its own, `HashString` and `HashOfEmpty` carry it |
| CustomHash.HashOf | SecureAuth-System/server/custom_hash.js:108-128 | the value of `hashString`; no contract of its own, the loop `HashString` is proved to compute it and `HashOfSeedModulo`, `HashOfEmpty` state its properties |
| CustomHash.BlockHash | SecureAuth-System/server/custom_hash.js:141-142 | entry i of `splitHashBlocks`; no contract of its own, `SplitHashBlocks` is proved to compute it |
| CustomHash.Fingerprint128 | SecureAuth-System/server/custom_hash.js:156-167 | the 128-bit fingerprint; no contract of its own, `GenerateHash128` is proved to compute it and `SplitReassembles` reads it back from the fragments |
| CustomHash.HashString | SecureAuth-System/server/custom_hash.js:108-128 | the loop leaves the absorb state of every code unit from `seed >>> 0`, then applies the finaliser; the result is a 32-bit word |
| CustomHash.HashOfSeedModulo | SecureAuth-System/server/custom_hash.js:108-109 | the hash depends on the seed only through `seed >>> 0` |
| CustomHash.HashOfEmpty | SecureAuth-System/server/custom_hash.js:109-125 | for the empty string the hash is the finaliser applied to `seed >>> 0` |
| CustomHash.AbsorbConcat | SecureAuth-System/server/custom_hash.js:112-118 | single pass: the state after `s + t` is the state after `s` continued over `t` |
| CustomHash.SplitHashBlocks | SecureAuth-System/server/custom_hash.js:137-147 | exactly `numBlocks` entries; entry i hashes `input + i.toString()` under `(seed + i * 0x9e3779b9) >>> 0` |
| CustomHash.GenerateHash128 | SecureAuth-System/server/custom_hash.js:156-167 | block1..block4 are entries 0..3 of the block split of `username + ":" + password` |
| CustomHash.SplitForServers | SecureAuth-System/server/custom_hash.js:176-212 | fragments A, B, C are block1..block3; D and E are the low and high halves of block4 |
| CustomHash.SplitRecords | SecureAuth-System/server/custom_hash.js:181-209 | the metadata: username, time and access count 1; login counters 0; context hashes of the fixed address and user agent; checksum `low16(block1 ^ block2)`; `backupSeed = seed >>> 0`, `recoveryKey = high16(block3)`, `backupHash = low16(block1)` |
| CustomHash.FragmentsIgnoreClockAndRandom | SecureAuth-System/server/custom_hash.js:176-206 | the five fragments never depend on the clock or the random context number |
| CustomHash.VerifyHash | SecureAuth-System/server/custom_hash.js:222-231 | true exactly when all five stored fragments equal those of the recomputed fingerprint |
| CustomHash.VerifySplit | SecureAuth-System/server/custom_hash.js:222-231 | round trip: a split verifies against the credentials and seed it came from, at any time and with any random input |
| CustomHash.SplitHalves | SecureAuth-System/server/custom_hash.js:200-206 | D and E are below 2^16 and `E * 65536 + D == block4` |
| CustomHash.SplitReassembles | SecureAuth-System/server/custom_hash.js:182-206 | the five fragments reassemble to the whole fingerprint |
| CustomHash.VerifyIffReassembles | SecureAuth-System/server/custom_hash.js:222-231 | for 16-bit stored D and E, verification succeeds exactly when the stored fragments reassemble to the claimed credentials' fingerprint |
| Rand.Mix32 | SecureAuth-System/server/rand.js:36-44 | `mix32`; no contract of its own (its `bv32` result is always unsigned 32-bit), `Mix32Modulo` and `Mix32Zero` state its properties |
| Rand.Splitmix64 | SecureAuth-System/server/rand.js:93-99 | `splitmix64`; no contract of its own (its `bv32` result is always unsigned 32-bit), `Splitmix64Modulo` states its property |
| Rand.Rotl32 | SecureAuth-System/server/rand.js:51-53 | `rotl32` with both shift counts masked to five bits; no contract of its own, `Rotl32IsRotation`, `RotlByZero` and `Rotl32Inverse` state its properties |
| Rand.RoundFunction | SecureAuth-System/server/rand.js:63-69 | `Feistel3.F`; no contract of its own, `RoundFunctionKeyed` states its property |
| Rand.KeyedRound | SecureAuth-System/server/rand.js:65-68 | the steps of `F` after `x ^ k`; no contract of its own, it is the body `RoundFunctionKeyed` reasons about |
| Rand.NewFeistel3 | SecureAuth-System/server/rand.js:57-61 | the `Feistel3` constructor; no contract of its own, `NewFeistel3Stores` states its property |
| Rand.WorkMask | SecureAuth-System/server/rand.js:111 | the work mask; no contract of its own, `DefaultWorkMask` gives its default value |
| Rand.PepperOf | SecureAuth-System/server/rand.js:112-113 | the pepper number from the masked word; no contract of its own, `PepperWord` states what is stored |
| Rand.KeySchedule | SecureAuth-System/server/rand.js:102-116 | the keys and pepper the generator's constructor derives; no contract of its own, `PepperBounds` and `DefaultPepperBounds` state its properties and the constructor's contract uses it |
| Rand.Mix32Modulo | SecureAuth-System/server/rand.js:36-37 | `mix32` reads its argument only modulo 2^32 |
| Rand.Mix32Zero | SecureAuth-System/server/rand.js:36-44 | `mix32(0)` is 0 |
| Rand.Splitmix64Modulo | SecureAuth-System/server/rand.js:93-94 | `splitmix64` reads its argument only modulo 2^32 |
| Rand.Rotl32IsRotation | SecureAuth-System/server/rand.js:51-53 | for r in 0..31, `rotl32(x, r)` equals r one-bit left rotations of x |
| Rand.RotlByZero | SecureAuth-System/server/rand.js:51-53 | `rotl32(x, 0)` is x: the shift `x >>> 32` is masked to `x >>> 0` |
| Rand.Rotl32Inverse | SecureAuth-System/server/rand.js:51-53 | rotating by r and then by 32 - r gives x back, for r in 1..31 |
| Rand.RoundFunctionKeyed | SecureAuth-System/server/rand.js:63-64 | `F(x, k, p)` depends on x and k only through `x ^ k` |
| Rand.Feistel3.Permute | SecureAuth-System/server/rand.js:71-90 | the closed form after the swaps: `R0 ^ t2` shifted left 16, or-ed with `v ^ t1 ^ t3`, where R0 is the high half of v and t1, t2, t3 are the three round values with their keys and peppers |
| Rand.NewFeistel3Stores | SecureAuth-System/server/rand.js:57-61 | the constructor stores words passed as unsigned or signed numbers unchanged |
| Rand.DefaultWorkMask | SecureAuth-System/server/rand.js:111 | with the default 26 work bits the mask is `2^26 - 1` |
| Rand.PepperWord | SecureAuth-System/server/rand.js:112-113 | the stored pepper is the masked word, or 1 when it is 0 |
| Rand.PepperBounds | SecureAuth-System/server/rand.js:111-113 | the pepper is never 0 and never above a nonzero mask |
| Rand.DefaultPepperBounds | SecureAuth-System/server/rand.js:102-113 | with the default work bits the pepper lies in 1..2^26 - 1 |
| Rand.CounterAt | SecureAuth-System/server/rand.js:118-119 | the counter after n calls is in [0, 2^32) |
| Rand.CounterAdvance | SecureAuth-System/server/rand.js:118-119 | one `next` moves the closed form `start + n * 0x9E3779B9 mod 2^32` from n to n + 1 |
| Rand.SlightlyHardRng.constructor | SecureAuth-System/server/rand.js:102-116 | the counter starts at `splitmix64(seed)`, the network is the key schedule of seed and workBits |
| Rand.SlightlyHardRng.Next | SecureAuth-System/server/rand.js:118-121 | adds 0x9E3779B9 to the counter modulo 2^32, returns `permute` of the new counter, and keeps the counter equal to its closed form after one more call |
| Rand.Reproducible | SecureAuth-System/server/rand.js:168-174 | two generators built from the same seed and work bits return the same n values, the i-th being `permute` of the counter after i + 1 steps |
| HashServer.ContainsInRange | SecureAuth-System/server/hash_server.js:290-292 | a one-class test such as `/[A-Z]/` holds exactly when some code unit is in the range |
| HashServer.ValidatePassword | SecureAuth-System/server/hash_server.js:284-295 | true exactly when the password has at least 8 code units and an upper-case letter, a lower-case letter and a digit |
| HashServer.RemainingSeconds | SecureAuth-System/server/hash_server.js:126 | the remaining lock time rounded up to whole seconds |
| HashServer.LockMessage | SecureAuth-System/server/hash_server.js:130 | the lock message is the fixed prefix, the decimal seconds, and the fixed suffix |
| HashServer.LockMessageReadsBack | SecureAuth-System/server/hash_server.js:126-130 | the digits in the lock message read back as the remaining seconds |
| HashServer.AttemptsRemaining | SecureAuth-System/server/hash_server.js:172 | `max(0, 5 - attempts)`: 0 exactly from the fifth attempt on, else the attempts left to reach 5 |
| HashServer.AuthStep | SecureAuth-System/server/hash_server.js:124-173 | one attempt on a known record: locked exactly when the lock is still running, and then the record is untouched; accepted exactly when unlocked and the password verifies; the hash data, seed and creation time are always kept |
| HashServer.AuthResponse | SecureAuth-System/server/hash_server.js:128-173 | the answer object: successful and carrying a session id exactly on acceptance, ACCOUNT_LOCKED exactly for a locked outcome |
| HashServer.AuthStepKeepsLockConsistent | SecureAuth-System/server/hash_server.js:157-164 | an attempt never sets a lock before the counter reaches the limit |
| HashServer.LockedIgnoresPassword | SecureAuth-System/server/hash_server.js:124-133 | while locked, the right and the wrong password give the same locked answer and leave the record unchanged |
| HashServer.SuccessResets | SecureAuth-System/server/hash_server.js:139-143 | an unlocked success clears the counter and the lock, stamps `lastLogin` with now, and keeps the hash data, seed and creation time |
| HashServer.RelockAfterExpiry | SecureAuth-System/server/hash_server.js:157-164 | after a lock expires, the next failure counts one more attempt and locks again for 900 seconds at once, with 0 remaining |
| HashServer.FailuresCount | SecureAuth-System/server/hash_server.js:157-164 | k failures (k ≤ 5) from a fresh record leave the counter at k, unlocked before the fifth and locked until 900 s after the fifth |
| HashServer.NthFailureRemaining | SecureAuth-System/server/hash_server.js:157-173 | the k-th consecutive failure from a fresh record reports 5 - k attempts remaining: 4, 3, 2, 1, 0 |
| HashServer.LockedAfterFiveFailures | SecureAuth-System/server/hash_server.js:124-164 | after five failures, any attempt within the lockout, even with the right password, is refused as locked |
| HashServer.UnknownUserLikeWrongPassword | SecureAuth-System/server/hash_server.js:114-173 | an unknown username and a wrong password get the same message and error code, and only the wrong password's answer carries `attemptsRemaining` |
| HashServer.SweepMatchesStats | SecureAuth-System/server/hash_server.js:300-332 | after a sweep, the session count is the number `getStats` calls active, and no remaining session is expired |
| HashServer.ChosenSeed | SecureAuth-System/server/hash_server.js:67-70 | an absent or zero seed is replaced by the random one, and any other seed is kept |
| HashServer.RegisteredPasswordMatches | SecureAuth-System/server/hash_server.js:74-146 | with this model's hash, a newly registered record is fresh, its password verifies at any later time, and its first login is accepted |
| HashServer.Server.constructor | SecureAuth-System/server/hash_server.js:9-33 | both maps are empty, the server is running, and hashing is bound to `CustomHash` |
| HashServer.Server.RegisterUser | SecureAuth-System/server/hash_server.js:48-103 | an existing name gives USER_EXISTS and a weak password gives WEAK_PASSWORD, both changing nothing; otherwise exactly one record is added, with the split under the chosen seed, no lock, no last login and counter 0 |
| HashServer.Server.AuthenticateUser | SecureAuth-System/server/hash_server.js:111-184 | an unknown user gives INVALID_CREDENTIALS and changes nothing; a known user's record becomes `AuthStep` of the verification, its answer is the matching response, and exactly one session is added, only on success; ACCOUNT_LOCKED comes only for an account that used up its attempts |
| HashServer.Server.CreateSession | SecureAuth-System/server/hash_server.js:191-203 | stores a new session for the user under the supplied id, overwriting any entry already there; for a registered user the class invariant is kept |
| HashServer.Server.ValidateSession | SecureAuth-System/server/hash_server.js:210-240 | an unknown id gives INVALID_SESSION; a session idle more than 3600 s is deleted with SESSION_EXPIRED; otherwise (boundary included) its last activity becomes now and its user, always a registered one, is returned |
| HashServer.Server.Logout | SecureAuth-System/server/hash_server.js:247-264 | removes exactly the given session, or answers INVALID_SESSION with the table unchanged |
| HashServer.Server.CleanupSessions | SecureAuth-System/server/hash_server.js:300-315 | the table becomes exactly the sessions idle no longer than the timeout, the survivors unchanged; the count it logs is the number removed |
| HashServer.Server.GetStats | SecureAuth-System/server/hash_server.js:321-349 | total users and sessions, the number of unexpired sessions and the number of users still locked |
| HashServer.Server.CountActiveSessions | SecureAuth-System/server/hash_server.js:326-332 | the loop counts exactly the sessions idle no longer than the timeout |
| HashServer.Server.CountLockedUsers | SecureAuth-System/server/hash_server.js:334-339 | the loop counts exactly the users whose lock is still in the future |
| HashServer.Server.HandleHashVerification | SecureAuth-System/server/hash_server.js:356-401 | a non-empty session id must validate (else 401 with its error); an unknown user gives 404; otherwise 200 with whether the hash verifies under the request's seed, or the stored one when that is absent or 0; the session table is unchanged without a session id, loses an expired session, and otherwise has that session's last activity set to now |
| HashServer.Server.Shutdown | SecureAuth-System/server/hash_server.js:468-478 | every session is cleared, the server stops, and the user database stays |

## Left out

- ChaoticRNG and the float hash family built on it are not part of this model: they are floating-point logistic-map numerics.
- `rotl64` is not modelled: it is unused and identical to `rotl32`.
- `generateSessionId` uses `Math.random`, the clock and ChaoticRNG, so the session id is a parameter of `AuthenticateUser` and `CreateSession`.
- `Date.now()` is one `now` parameter per operation. Where the source reads the clock several times in one call (for example in `authenticateUser` and `createSession`), the model uses one instant for all of them.
- `Math.random` (the registration seed and server C's context number) is a parameter.
- Console output, `printHashInfo`, `printServerDistribution`, `runDiagnostics` and the test, performance and statistics functions are not modelled: they are logging and timing.
- The `try`/`catch` INTERNAL_ERROR and status-500 branches are not modelled: nothing in the modelled code throws.
- `startServer`'s periodic `setInterval` sweep is not modelled: it is a timer. `CleanupSessions` models one sweep.
- `getStats`'s `uptime` (its `startTime` is never set) and its echo of the configuration are not modelled. The unused configuration values `port` and `maxSessions` are left out too.
- Result objects are datatypes: a field the source leaves out of an object is `None`, and error codes are an enumeration rather than strings.
- Seeds, work bits and other JavaScript numbers are integers. Non-integral numbers, NaN, strings passed as seeds, and non-string passwords are not modelled.
- Rand.PepperBounds: the bound is stated against the source's mask expression `WorkMask(workBits)`. That this mask is 2^workBits - 1 is proved only for the default 26 work bits (`DefaultWorkMask`).
- The model describes the functions as written. Lines 188 and 198 of `server/rand.js` (`${end - start:.2f}` inside a template literal) are not valid JavaScript, so that file as written does not load, and `generateSessionId`'s `new ChaoticRNG` would then throw. The claim that nothing in the modelled code throws assumes the generator file loads.
- Concurrency is not modelled: the source is single-threaded JavaScript without locking.
- Rand.Feistel3.Permute: no bijectivity or collision-freedom is claimed, because the source's `permute` is not a clean Feistel network.
- Rand.Mix32, Rand.Splitmix64: "always an unsigned 32-bit value" holds by their `bv32` result type and has no lemma of its own.
- HashServer.Server.RegisterUser: the stored record is stated through the server's `hashing` field. That it is this model's `splitForServers`, and so verifies, is stated for `CustomHashApi` by `RegisteredPasswordMatches` and the constructor's binding.
