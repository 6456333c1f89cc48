/**
 The keystore's six files over ideal cryptography: a ciphertext is a term that
 opens with the right key or password and with nothing else.
 */
module Keystore {
  import opened Wrappers

  /** Key pairs and AES keys are names; a fresh one is a name not used before. */
  type Key = nat

  datatype Blob =
    | EncryptedCredentials(key: Key, creds: string)
    | PublicKey(key: Key)
    | PasswordWrapped(key: Key, password: string)
    | SealedPrivateKey(key: Key)
    | SealedAes(aes: Key)
    | AesWrapped(key: Key, aes: Key)

  /** The configuration directory; `None` where a file does not exist. */
  datatype Dir = Dir(
    credentials: Option<Blob>,
    publicKey: Option<Blob>,
    privateEnc: Option<Blob>,
    privateSealed: Option<Blob>,
    tpmAesSealed: Option<Blob>,
    privateTpmEnc: Option<Blob>)

  /** No file is there. */
  const EMPTY := Dir(None, None, None, None, None, None)

  /** Whether the TPM is there, and whether it seals and unseals when asked. */
  datatype Tpm = Tpm(available: bool, works: bool)

  /** How far sealing gets; each of its two files is written atomically. */
  datatype SealOutcome = TpmRefuses | StopsBetweenFiles | Completes

  // ------------------------------------------------------------------ unlocking

  function UnlockWithTpm(d: Dir, tpm: Tpm): Option<Key> {
    match (d.tpmAesSealed, d.privateTpmEnc)
    case (Some(SealedAes(aes)), Some(AesWrapped(key, wrappedBy))) =>
      if tpm.works && aes == wrappedBy then Some(key) else None
    case _ => None
  }

  function UnlockWithPassword(d: Dir, password: Option<string>): Option<Key> {
    match (d.privateEnc, password)
    case (Some(PasswordWrapped(key, p)), Some(given)) => if p == given then Some(key) else None
    case _ => None
  }

  function UnlockKey(d: Dir, password: Option<string>, tpm: Tpm): Option<Key> {
    if tpm.available && d.tpmAesSealed.Some? && d.privateTpmEnc.Some? then
      match UnlockWithTpm(d, tpm)
      case Some(key) => Some(key)
      case None => UnlockWithPassword(d, password)
    else UnlockWithPassword(d, password)
  }

  function Unlock(d: Dir, password: Option<string>, tpm: Tpm): Option<string> {
    match d.credentials
    case Some(EncryptedCredentials(key, creds)) =>
      if UnlockKey(d, password, tpm) == Some(key) then Some(creds) else None
    case _ => None
  }

  // ----------------------------------------------------------------- operations

  datatype Op =
    | Setup(creds: string, password: string, key: Key, tpm: Tpm)
    | Reencrypt(creds: string)
    | Seal(password: string, aes: Key, outcome: SealOutcome)
    | Reset

  /** The directory after an operation that is not interrupted except where sealing says so. */
  function Step(d: Dir, op: Op): Dir {
    match op
    case Setup(creds, password, key, tpm) =>
      d.(credentials := Some(EncryptedCredentials(key, creds)),
         publicKey := Some(PublicKey(key)),
         privateSealed := if tpm.available && tpm.works then Some(SealedPrivateKey(key)) else d.privateSealed,
         privateEnc := Some(PasswordWrapped(key, password)))
    case Reencrypt(creds) =>
      (match d.publicKey
       case Some(PublicKey(key)) => d.(credentials := Some(EncryptedCredentials(key, creds)))
       case _ => d)
    case Seal(password, aes, outcome) =>
      (match UnlockWithPassword(d, Some(password))
       case None => d
       case Some(key) =>
         match outcome
         case TpmRefuses => d
         case StopsBetweenFiles => d.(tpmAesSealed := Some(SealedAes(aes)))
         case Completes => d.(tpmAesSealed := Some(SealedAes(aes)), privateTpmEnc := Some(AesWrapped(key, aes))))
    case Reset => EMPTY
  }

  /** The files that setup makes in an empty directory, all of one key pair. */
  lemma FilesAfterSetup(creds: string, password: string, key: Key, tpm: Tpm)
    ensures var d := Step(EMPTY, Setup(creds, password, key, tpm));
            && d.credentials == Some(EncryptedCredentials(key, creds))
            && d.publicKey == Some(PublicKey(key))
            && d.privateEnc == Some(PasswordWrapped(key, password))
            && (d.privateSealed == Some(SealedPrivateKey(key)) <==> tpm == Tpm(true, true))
            && (d.privateSealed == None <==> tpm != Tpm(true, true))
            && d.tpmAesSealed == None && d.privateTpmEnc == None
  {
  }

  class ConfigDir {
    var dir: Dir

    constructor ()
      ensures dir == EMPTY
    {
      dir := EMPTY;
    }

    method SetupKeystore(creds: string, password: string, key: Key, tpm: Tpm)
      modifies this
      ensures dir == Step(old(dir), Setup(creds, password, key, tpm))
    {
      dir := dir.(credentials := Some(EncryptedCredentials(key, creds)));
      dir := dir.(publicKey := Some(PublicKey(key)));
      if tpm.available && tpm.works {
        dir := dir.(privateSealed := Some(SealedPrivateKey(key)));
      }
      dir := dir.(privateEnc := Some(PasswordWrapped(key, password)));
    }

    method UnlockKeystore(password: Option<string>, tpm: Tpm) returns (r: Option<string>)
      ensures r == Unlock(dir, password, tpm)
    {
      if dir.credentials.None? || !dir.credentials.value.EncryptedCredentials? {
        return None;
      }
      var encrypted := dir.credentials.value;
      var key: Option<Key> := None;
      if tpm.available && dir.tpmAesSealed.Some? && dir.privateTpmEnc.Some? {
        key := UnlockWithTpm(dir, tpm);
        if key.None? {
          key := UnlockWithPassword(dir, password);
        }
      } else {
        key := UnlockWithPassword(dir, password);
      }
      if key != Some(encrypted.key) {
        return None;
      }
      return Some(encrypted.creds);
    }

    method ReencryptCredentials(creds: string) returns (ok: bool)
      modifies this
      ensures dir == Step(old(dir), Reencrypt(creds))
      ensures ok == (old(dir).publicKey.Some? && old(dir).publicKey.value.PublicKey?)
    {
      if dir.publicKey.None? || !dir.publicKey.value.PublicKey? {
        return false;
      }
      dir := dir.(credentials := Some(EncryptedCredentials(dir.publicKey.value.key, creds)));
      return true;
    }

    /** Writes the sealed AES key first and the key it wraps second. */
    method SealAfterUnlock(password: string, aes: Key, outcome: SealOutcome) returns (ok: bool)
      modifies this
      ensures dir == Step(old(dir), Seal(password, aes, outcome))
      ensures ok == (UnlockWithPassword(old(dir), Some(password)).Some? && outcome.Completes?)
    {
      var key := UnlockWithPassword(dir, Some(password));
      if key.None? || outcome.TpmRefuses? {
        return false;
      }
      dir := dir.(tpmAesSealed := Some(SealedAes(aes)));
      if outcome.StopsBetweenFiles? {
        return false;
      }
      dir := dir.(privateTpmEnc := Some(AesWrapped(key.value, aes)));
      return true;
    }

    method ResetKeystore()
      modifies this
      ensures dir == Step(old(dir), Reset)
    {
      dir := dir.(credentials := None);
      dir := dir.(publicKey := None);
      dir := dir.(privateEnc := None);
      dir := dir.(privateSealed := None);
      dir := dir.(tpmAesSealed := None);
      dir := dir.(privateTpmEnc := None);
    }
  }

  // ----------------------------------------------------------------- whole runs

  /** What the user stored last and under which password, from the operations alone. */
  datatype Memory = Nothing | Stored(creds: string, password: string)

  function Remember(m: Memory, op: Op): Memory {
    match op
    case Setup(creds, password, _, _) => Stored(creds, password)
    case Reencrypt(creds) => if m.Stored? then m.(creds := creds) else m
    case Seal(_, _, _) => m
    case Reset => Nothing
  }

  function RememberAll(m: Memory, ops: seq<Op>): Memory
    decreases |ops|
  {
    if ops == [] then m else RememberAll(Remember(m, ops[0]), ops[1..])
  }

  function RunOps(d: Dir, ops: seq<Op>): Dir
    decreases |ops|
  {
    if ops == [] then d else RunOps(Step(d, ops[0]), ops[1..])
  }

  /** Setup happens only on an empty directory. */
  predicate ValidRun(m: Memory, ops: seq<Op>)
    decreases |ops|
  {
    ops == [] || ((ops[0].Setup? ==> m.Nothing?) && ValidRun(Remember(m, ops[0]), ops[1..]))
  }

  /** All key material in the directory is of one key pair, and matches the memory. */
  ghost predicate Agrees(d: Dir, m: Memory) {
    match m
    case Nothing => d == EMPTY
    case Stored(creds, password) =>
      exists key ::
        && d.credentials == Some(EncryptedCredentials(key, creds))
        && d.publicKey == Some(PublicKey(key))
        && d.privateEnc == Some(PasswordWrapped(key, password))
        && (d.privateTpmEnc.Some? ==> d.privateTpmEnc.value.AesWrapped? && d.privateTpmEnc.value.key == key)
  }

  lemma {:induction false} StepKeepsAgreement(d: Dir, m: Memory, op: Op)
    requires Agrees(d, m) && (op.Setup? ==> m.Nothing?)
    ensures Agrees(Step(d, op), Remember(m, op))
  {
    if m.Stored? && !op.Reset? {
      var key :| && d.credentials == Some(EncryptedCredentials(key, m.creds))
                 && d.publicKey == Some(PublicKey(key))
                 && d.privateEnc == Some(PasswordWrapped(key, m.password))
                 && (d.privateTpmEnc.Some? ==> d.privateTpmEnc.value.AesWrapped? && d.privateTpmEnc.value.key == key);
      assert Step(d, op).publicKey == Some(PublicKey(key));
    }
  }

  lemma {:induction false} RunKeepsAgreement(d: Dir, m: Memory, ops: seq<Op>)
    requires Agrees(d, m) && ValidRun(m, ops)
    ensures Agrees(RunOps(d, ops), RememberAll(m, ops))
    decreases |ops|
  {
    if ops != [] {
      StepKeepsAgreement(d, m, ops[0]);
      RunKeepsAgreement(Step(d, ops[0]), Remember(m, ops[0]), ops[1..]);
    }
  }

  /** The wrapped private key was wrapped with the AES key that is sealed. */
  ghost predicate TpmFilesFit(d: Dir) {
    exists key, aes :: d.tpmAesSealed == Some(SealedAes(aes)) && d.privateTpmEnc == Some(AesWrapped(key, aes))
  }

  /**
   In an agreeing directory unlocking yields the stored credentials exactly when
   the password is right or the TPM's two files fit together.
   */
  lemma {:induction false} UnlockIff(d: Dir, m: Memory, password: Option<string>, tpm: Tpm)
    requires Agrees(d, m) && m.Stored?
    ensures Unlock(d, password, tpm) == Some(m.creds) <==>
            password == Some(m.password) || (tpm.available && tpm.works && TpmFilesFit(d))
    ensures Unlock(d, password, tpm).Some? ==> Unlock(d, password, tpm) == Some(m.creds)
  {
  }

  /**
   After any run from an empty directory, with sealing interrupted at any point
   and whatever the TPM does, the setup password unlocks what was stored last;
   with nothing stored nothing unlocks.
   */
  lemma {:induction false} SetupPasswordUnlocks(ops: seq<Op>, tpm: Tpm)
    requires ValidRun(Nothing, ops)
    ensures match RememberAll(Nothing, ops)
            case Nothing => forall password :: Unlock(RunOps(EMPTY, ops), password, tpm) == None
            case Stored(creds, password) => Unlock(RunOps(EMPTY, ops), Some(password), tpm) == Some(creds)
  {
    RunKeepsAgreement(EMPTY, Nothing, ops);
    if RememberAll(Nothing, ops).Stored? {
      var m := RememberAll(Nothing, ops);
      UnlockIff(RunOps(EMPTY, ops), m, Some(m.password), tpm);
    }
  }

  /**
   After sealing, a working TPM alone unlocks exactly when sealing was completed
   with the right password, or left two files that fit: those from before if it
   wrote nothing, or the new one and the old one if they share the AES key.
   */
  lemma {:induction false} SealedUnlocksAlone(d: Dir, m: Memory, password: string, aes: Key, outcome: SealOutcome)
    requires Agrees(d, m) && m.Stored?
    ensures Unlock(Step(d, Seal(password, aes, outcome)), None, Tpm(true, true)) == Some(m.creds) <==>
            if password != m.password || outcome.TpmRefuses? then TpmFilesFit(d)
            else if outcome.Completes? then true
            else exists key :: d.privateTpmEnc == Some(AesWrapped(key, aes))
  {
    var after := Step(d, Seal(password, aes, outcome));
    StepKeepsAgreement(d, m, Seal(password, aes, outcome));
    UnlockIff(after, m, None, Tpm(true, true));
    if password == m.password && outcome.Completes? {
      assert after.tpmAesSealed == Some(SealedAes(aes));
      assert after.privateTpmEnc.Some? && after.privateTpmEnc.value.aes == aes;
    }
  }

  /** TPM files of another key pair that fit together: unlocking prefers them. */
  ghost predicate StaleTpmKey(d: Dir, tpm: Tpm, key: Key) {
    && tpm.available && tpm.works
    && exists earlier, aes ::
         && d.tpmAesSealed == Some(SealedAes(aes)) && d.privateTpmEnc == Some(AesWrapped(earlier, aes))
         && earlier != key
  }

  /**
   Setup over a directory that was not cleared: the new password unlocks the new
   credentials exactly when no working TPM files of an older key pair remain.
   There is no fallback, because the TPM path itself succeeds.
   */
  lemma {:induction false} SetupOverLeftoversIff(d: Dir, creds: string, password: string, key: Key,
                                                 during: Tpm, tpm: Tpm)
    ensures var after := Step(d, Setup(creds, password, key, during));
            Unlock(after, Some(password), tpm) == Some(creds) <==> !StaleTpmKey(d, tpm, key)
  {
  }

  /** The failing case arises from setup, sealing and a second setup. */
  lemma {:induction false} SecondSetupLocksOut()
    ensures var tpm := Tpm(true, true);
            var ops := [Setup("old", "p", 1, tpm), Seal("p", 7, Completes), Setup("new", "p", 2, tpm)];
            Unlock(RunOps(EMPTY, ops), Some("p"), tpm) == None
  {
    var tpm := Tpm(true, true);
    var d1 := Step(EMPTY, Setup("old", "p", 1, tpm));
    var d2 := Step(d1, Seal("p", 7, Completes));
    var ops := [Setup("old", "p", 1, tpm), Seal("p", 7, Completes), Setup("new", "p", 2, tpm)];
    assert ops[1..][1..] == [ops[2]] && ops[1..][0] == ops[1];
    assert [ops[2]][1..] == [];
    assert RunOps(EMPTY, ops) == RunOps(d1, ops[1..]) == RunOps(d2, [ops[2]]) == RunOps(Step(d2, ops[2]), []);
    assert UnlockWithTpm(d2, tpm) == Some(1);
    assert UnlockWithTpm(Step(d2, ops[2]), tpm) == Some(1);
  }
}
