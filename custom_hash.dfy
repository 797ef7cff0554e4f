/**
 * The integer fingerprint of a credential pair and its five-way fragment
 * split (server/custom_hash.js).
 *
 * `hashString` is a single-pass 32-bit avalanche hash over UTF-16 code units;
 * four such hashes of `username + ":" + password + i` form a 128-bit
 * fingerprint; `splitForServers` carves it into fragments A, B, C (32 bits
 * each), D and E (the low and high halves of the fourth block) with per-role
 * metadata; `verifyHash` recomputes the split and compares all five fragments.
 *
 * `HashString`, `SplitHashBlocks` and `GenerateHash128` are the source's loops
 * and are proved against the functions `HashOf`, `BlockHash` and
 * `Fingerprint128`, which the rest of the model uses.
 */
module CustomHash {
  import opened JsRuntime

  const GoldenMultiplier: nat := 0x9e3779b1
  const FinalMultiplier1: nat := 0x85ebca6b
  const FinalMultiplier2: nat := 0xc2b2ae35
  const BlockSeedStep: nat := 0x9e3779b9

  // ---------------------------------------------------------------------------
  // Records

  datatype Hash128 = Hash128(block1: bv32, block2: bv32, block3: bv32, block4: bv32)

  datatype UserMetadata = UserMetadata(username: JsString, createdTime: int, accessCount: nat)
  datatype AuthData = AuthData(loginAttempts: nat, lastLogin: int, failedAttempts: nat)
  datatype ContextData = ContextData(sessionId: nat, ipHash: bv32, userAgentHash: bv32)
  datatype VerificationData = VerificationData(checksum: bv32, integrityCheck: bool, lastVerified: int)
  datatype RecoveryData = RecoveryData(backupSeed: bv32, recoveryKey: bv32, backupHash: bv32)

  datatype ServerA = ServerA(hashFragment: bv32, metadata: UserMetadata)
  datatype ServerB = ServerB(hashFragment: bv32, authData: AuthData)
  datatype ServerC = ServerC(hashFragment: bv32, contextData: ContextData)
  /** Its fragment holds 16 bits. */
  datatype ServerD = ServerD(hashFragment: bv32, verificationData: VerificationData)
  /** Its fragment holds 16 bits. */
  datatype ServerE = ServerE(hashFragment: bv32, recoveryData: RecoveryData)

  datatype ServerHashData = ServerHashData(
    serverA: ServerA, serverB: ServerB, serverC: ServerC, serverD: ServerD, serverE: ServerE)

  /**
   * `new ServerHashData()`: every fragment 0, every timestamp the current
   * time in seconds, the remaining metadata zero, empty or false.
   */
  function NewServerHashData(nowSec: int): (d: ServerHashData)
    ensures Fragments(d) == (0, 0, 0, 0, 0)
    ensures !d.serverD.verificationData.integrityCheck
    ensures d.serverA.metadata.createdTime == d.serverB.authData.lastLogin
         == d.serverD.verificationData.lastVerified == nowSec
  {
    ServerHashData(
      ServerA(0, UserMetadata([], nowSec, 0)),
      ServerB(0, AuthData(0, nowSec, 0)),
      ServerC(0, ContextData(0, 0, 0)),
      ServerD(0, VerificationData(0, false, nowSec)),
      ServerE(0, RecoveryData(0, 0, 0)))
  }

  /** The five hash fragments, in server order A to E. */
  function Fragments(d: ServerHashData): (bv32, bv32, bv32, bv32, bv32)
  {
    (d.serverA.hashFragment, d.serverB.hashFragment, d.serverC.hashFragment,
     d.serverD.hashFragment, d.serverE.hashFragment)
  }

  // ---------------------------------------------------------------------------
  // hashString

  /** One pass of the loop body of hashString: xor the code unit, multiply, rotate left 13, xor-shift 16. */
  function AbsorbUnit(hash: bv32, c: CodeUnit): bv32
  {
    var x := hash ^ (c as bv32);
    var y := JsMulU32(Int32Value(x), GoldenMultiplier);
    var z := (y << 13) | (y >> 19);
    z ^ (z >> 16)
  }

  /** The loop state after absorbing every code unit of `s`, starting from `hash`. */
  function Absorb(hash: bv32, s: JsString): bv32
  {
    if s == [] then hash else AbsorbUnit(Absorb(hash, s[..|s| - 1]), s[|s| - 1])
  }

  /** The three-step multiply/xor-shift finaliser. */
  function Finalize(hash: bv32): bv32
  {
    var a := hash ^ (hash >> 16);
    var b := JsMulU32(Int32Value(a), FinalMultiplier1);
    var c := b ^ (b >> 13);
    var d := JsMulU32(Int32Value(c), FinalMultiplier2);
    d ^ (d >> 16)
  }

  /** The value of `hashString(input, seed)`. */
  function HashOf(input: JsString, seed: int): bv32
  {
    Finalize(Absorb(ToUint32(seed), input))
  }

  /** `CustomHash.hashString`: the loop over the code units, then the finaliser. */
  method HashString(input: JsString, seed: int) returns (hash: bv32)
    ensures hash == Finalize(Absorb(ToUint32(seed), input))
  {
    hash := ToUint32(seed);
    var i := 0;
    while i < |input|
      invariant 0 <= i <= |input|
      invariant hash == Absorb(ToUint32(seed), input[..i])
    {
      assert input[..i + 1][..i] == input[..i];
      hash := AbsorbUnit(hash, input[i]);
      i := i + 1;
    }
    assert input[..i] == input;
    hash := Finalize(hash);
  }

  /** The hash reads the seed only through `seed >>> 0`. */
  lemma HashOfSeedModulo(input: JsString, seed1: int, seed2: int)
    requires seed1 % TwoTo32 == seed2 % TwoTo32
    ensures HashOf(input, seed1) == HashOf(input, seed2)
  {
  }

  /** For the empty string the loop never runs: the finaliser is applied to `seed >>> 0`. */
  lemma HashOfEmpty(seed: int)
    ensures HashOf([], seed) == Finalize(ToUint32(seed))
  {
  }

  /**
   * Single pass: the loop state after `s + t` is the state after `s`,
   * continued over `t`.
   */
  lemma {:induction false} AbsorbConcat(hash: bv32, s: JsString, t: JsString)
    ensures Absorb(hash, s + t) == Absorb(Absorb(hash, s), t)
  {
    if t != [] {
      assert (s + t)[..|s + t| - 1] == s + t[..|t| - 1];
      AbsorbConcat(hash, s, t[..|t| - 1]);
    } else {
      assert s + t == s;
    }
  }

  // ---------------------------------------------------------------------------
  // splitHashBlocks and generateHash128

  /** Entry `i` of `splitHashBlocks(input, seed, n)`. */
  function BlockHash(input: JsString, seed: int, i: nat): bv32
  {
    HashOf(input + Decimal(i), Uint32Value(ToUint32(seed + i * BlockSeedStep)))
  }

  /** `CustomHash.splitHashBlocks`: one hash per block, each over the input with the block's index appended. */
  method SplitHashBlocks(input: JsString, seed: int, numBlocks: nat) returns (blocks: seq<bv32>)
    ensures |blocks| == numBlocks
    ensures forall i | 0 <= i < numBlocks ::
      blocks[i] == HashOf(input + Decimal(i), Uint32Value(ToUint32(seed + i * BlockSeedStep)))
  {
    blocks := [];
    var i := 0;
    while i < numBlocks
      invariant 0 <= i <= numBlocks && |blocks| == i
      invariant forall j | 0 <= j < i :: blocks[j] == BlockHash(input, seed, j)
    {
      var blockSeed := ToUint32(seed + i * BlockSeedStep);
      var blockHash := HashString(input + Decimal(i), Uint32Value(blockSeed));
      AppendBlock(blocks, blockHash, input, seed);
      blocks := blocks + [blockHash];
      i := i + 1;
    }
  }

  /** Appending block `|blocks|` keeps the prefix of the block list correct. */
  lemma AppendBlock(blocks: seq<bv32>, x: bv32, input: JsString, seed: int)
    requires forall j | 0 <= j < |blocks| :: blocks[j] == BlockHash(input, seed, j)
    requires x == BlockHash(input, seed, |blocks|)
    ensures forall j | 0 <= j < |blocks| + 1 :: (blocks + [x])[j] == BlockHash(input, seed, j)
  {
  }

  /** `username + ":" + password`. */
  function Credentials(username: JsString, password: JsString): JsString
  {
    username + Ascii(":") + password
  }

  /** The 128-bit fingerprint of a credential pair under a seed. */
  function Fingerprint128(username: JsString, password: JsString, seed: int): Hash128
  {
    var combined := Credentials(username, password);
    Hash128(BlockHash(combined, seed, 0), BlockHash(combined, seed, 1),
            BlockHash(combined, seed, 2), BlockHash(combined, seed, 3))
  }

  /** `CustomHash.generateHash128`: blocks 0..3 of `splitHashBlocks(username + ":" + password, seed, 4)`. */
  method GenerateHash128(username: JsString, password: JsString, seed: int) returns (hash128: Hash128)
    ensures hash128 == Fingerprint128(username, password, seed)
  {
    var combined := username + Ascii(":") + password;
    var blocks := SplitHashBlocks(combined, seed, 4);
    hash128 := Hash128(blocks[0], blocks[1], blocks[2], blocks[3]);
  }

  // ---------------------------------------------------------------------------
  // splitForServers and verifyHash

  /** The five fragments a fingerprint is stored as: blocks 1 to 3 whole, block 4 split low half then high half. */
  function FingerprintFragments(h: Hash128): (bv32, bv32, bv32, bv32, bv32)
  {
    (h.block1, h.block2, h.block3, LowHalf(h.block4), HighHalf(h.block4))
  }

  /** The ASCII address and user agent whose hashes fill server C's context record. */
  const ContextAddress: JsString := Ascii("192.168.1.1")
  const ContextUserAgent: JsString := Ascii("Mozilla/5.0")

  /**
   * `CustomHash.splitForServers`. The clock (`Math.floor(Date.now() / 1000)`)
   * and the random session number of server C are parameters.
   */
  function SplitForServers(username: JsString, password: JsString, seed: int,
                           nowSec: int, contextRandom: nat): (d: ServerHashData)
    ensures Fragments(d) == FingerprintFragments(Fingerprint128(username, password, seed))
  {
    var h := Fingerprint128(username, password, seed);
    var d := NewServerHashData(nowSec);
    var d := d.(serverA := d.serverA.(
      hashFragment := h.block1,
      metadata := d.serverA.metadata.(username := username, createdTime := nowSec, accessCount := 1)));
    var d := d.(serverB := d.serverB.(
      hashFragment := h.block2,
      authData := d.serverB.authData.(loginAttempts := 0, lastLogin := nowSec, failedAttempts := 0)));
    var d := d.(serverC := d.serverC.(
      hashFragment := h.block3,
      contextData := d.serverC.contextData.(
        sessionId := contextRandom,
        ipHash := HashOf(ContextAddress, seed),
        userAgentHash := HashOf(ContextUserAgent, seed))));
    var d := d.(serverD := d.serverD.(
      hashFragment := LowHalf(h.block4),
      verificationData := d.serverD.verificationData.(
        checksum := LowHalf(h.block1 ^ h.block2), integrityCheck := true, lastVerified := nowSec)));
    d.(serverE := d.serverE.(
      hashFragment := HighHalf(h.block4),
      recoveryData := d.serverE.recoveryData.(
        backupSeed := ToUint32(seed),
        recoveryKey := HighHalf(h.block3),
        backupHash := LowHalf(h.block1))))
  }

  /**
   * `CustomHash.verifyHash`: recompute the split (its clock and random inputs
   * are parameters here) and require all five fragments to be equal.
   */
  function VerifyHash(username: JsString, password: JsString, seed: int, stored: ServerHashData,
                      nowSec: int, contextRandom: nat): (ok: bool)
    ensures ok <==> Fragments(stored) == FingerprintFragments(Fingerprint128(username, password, seed))
  {
    var recomputed := SplitForServers(username, password, seed, nowSec, contextRandom);
    && recomputed.serverA.hashFragment == stored.serverA.hashFragment
    && recomputed.serverB.hashFragment == stored.serverB.hashFragment
    && recomputed.serverC.hashFragment == stored.serverC.hashFragment
    && recomputed.serverD.hashFragment == stored.serverD.hashFragment
    && recomputed.serverE.hashFragment == stored.serverE.hashFragment
  }

  /** The side records of a split: metadata, login counters, context hashes, checksum and recovery data. */
  lemma SplitRecords(username: JsString, password: JsString, seed: int, nowSec: int, contextRandom: nat)
    ensures var d := SplitForServers(username, password, seed, nowSec, contextRandom);
      var h := Fingerprint128(username, password, seed);
      && d.serverA.metadata == UserMetadata(username, nowSec, 1)
      && d.serverB.authData == AuthData(0, nowSec, 0)
      && d.serverC.contextData == ContextData(contextRandom, HashOf(ContextAddress, seed), HashOf(ContextUserAgent, seed))
      && d.serverD.verificationData == VerificationData(LowHalf(h.block1 ^ h.block2), true, nowSec)
      && d.serverE.recoveryData == RecoveryData(ToUint32(seed), HighHalf(h.block3), LowHalf(h.block1))
  {
  }

  /** The fragments never depend on the clock or on the random context number. */
  lemma FragmentsIgnoreClockAndRandom(username: JsString, password: JsString, seed: int,
                                      now1: int, random1: nat, now2: int, random2: nat)
    ensures Fragments(SplitForServers(username, password, seed, now1, random1))
         == Fragments(SplitForServers(username, password, seed, now2, random2))
  {
  }

  /** Round trip: a split always verifies against the credentials and seed it was made from. */
  lemma VerifySplit(username: JsString, password: JsString, seed: int,
                    now1: int, random1: nat, now2: int, random2: nat)
    ensures VerifyHash(username, password, seed,
                       SplitForServers(username, password, seed, now1, random1), now2, random2)
  {
  }

  /** The fingerprint read back from the five fragments: block4 is E in the high half, D in the low. */
  function Reassemble(d: ServerHashData): Hash128
  {
    Hash128(d.serverA.hashFragment, d.serverB.hashFragment, d.serverC.hashFragment,
            JoinHalves(d.serverE.hashFragment, d.serverD.hashFragment))
  }

  /** Fragments D and E are 16-bit, and `E * 65536 + D` is block4. */
  lemma SplitHalves(username: JsString, password: JsString, seed: int, nowSec: int, contextRandom: nat)
    ensures var d := SplitForServers(username, password, seed, nowSec, contextRandom);
      var h := Fingerprint128(username, password, seed);
      && d.serverD.hashFragment < 0x1_0000 && d.serverE.hashFragment < 0x1_0000
      && d.serverE.hashFragment * 0x1_0000 + d.serverD.hashFragment == h.block4
  {
    var h := Fingerprint128(username, password, seed);
    var d := SplitForServers(username, password, seed, nowSec, contextRandom);
    HalvesBounded(h.block4);
    JoinHalvesIff(h.block4, d.serverD.hashFragment, d.serverE.hashFragment);
    JoinHalvesSum(d.serverD.hashFragment, d.serverE.hashFragment);
  }

  /** The five fragments of a split hold the whole fingerprint and nothing else. */
  lemma SplitReassembles(username: JsString, password: JsString, seed: int, nowSec: int, contextRandom: nat)
    ensures Reassemble(SplitForServers(username, password, seed, nowSec, contextRandom))
         == Fingerprint128(username, password, seed)
  {
    var h := Fingerprint128(username, password, seed);
    var d := SplitForServers(username, password, seed, nowSec, contextRandom);
    JoinHalvesIff(h.block4, d.serverD.hashFragment, d.serverE.hashFragment);
  }

  /**
   * For stored fragments of the right widths, verification succeeds exactly
   * when they reassemble to the fingerprint of the claimed credentials.
   */
  lemma VerifyIffReassembles(username: JsString, password: JsString, seed: int,
                             stored: ServerHashData, nowSec: int, contextRandom: nat)
    requires stored.serverD.hashFragment < 0x1_0000 && stored.serverE.hashFragment < 0x1_0000
    ensures VerifyHash(username, password, seed, stored, nowSec, contextRandom)
        <==> Reassemble(stored) == Fingerprint128(username, password, seed)
  {
    var h := Fingerprint128(username, password, seed);
    JoinHalvesIff(h.block4, stored.serverD.hashFragment, stored.serverE.hashFragment);
  }
}
