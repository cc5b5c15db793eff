# A verified model of a software TPM

This project models the stateful core of a software TPM (libtpms with a WebAssembly platform layer) and
proves what it is for: authorizations that cannot be replayed, guessing that is slowed down, counters that
never repeat, ciphers and key recovery that come back to what went in, an audit log that its digest pins
down, and state and key material that arrive where they should.

Code that changes things step by step is a class or a method with loops, proved against functions on
values. What the system promises is then proved of those functions, over every input and every run.

| module | what it models |
|---|---|
| `Bytes`, `Codes`, `Tables` | byte strings, big-endian codecs, exclusive or, return codes, slot search |
| `Lockout` | failure counter, doubling lock-out over a 32-bit clock, the gate, TPM_ResetLockValue |
| `Auth` | session table, HMAC check, rolling nonces, the one-session ordinal, TPM_OIAP |
| `Counters` | monotonic counters, their NV image, the active counter of a boot |
| `NumberTheory`, `Rsa` | Euclid's lemma and Fermat's little theorem; recovery of q and d, and that the key works |
| `Cbc`, `Ctr` | AES-CBC with padding, the TPM's counter mode |
| `AuditStatus`, `AuditLog` | which ordinals are audited; the digest chain |
| `StateCache`, `PersistentStore` | the state-blob cache and version choice; the growing serialization buffer |
| `NvMemory`, `Wire`, `NvWrite`, `CreatePrimary` | the WASM platform layer |

Two modelling choices matter when reading the theorems.

* Cryptography is arbitrary. A block cipher is any function, with an inverse where one is needed. An HMAC or
  SHA-1 is any function into 20 bytes; since no such function is injective, theorems about replay and about
  the audit digest do not assume that it is. They end in "or here are two different inputs, both of which
  the TPM really hashed, with one hash".
* What the platform decides is a parameter: clock readings, random nonces, allocation, NV I/O and the
  results of the steps around the modelled ones. Runs quantify over all of them.

Where the code meets a property only sometimes, a lemma says exactly when: `Lockout.LockoutWindow`,
`Counters.LowersIff` and `Counters.CountsNeverDecrease`, `Counters.CreateIsFreshIff`, `Rsa.DecryptsIffDistinct`,
`Cbc.AcceptsOnlyEncryptionsIff`, `NvMemory.PassesIff`, `NvWrite.LaidIsDataIff`, `CreatePrimary.DecodeEncode`,
`CreatePrimary.InsideIff`, `CreatePrimary.ExtractNeedsLimit`, and the `altered` clause of `AuditStatus.Status.Set`.

## Model

| member | source | states |
|---|---|---|
| `Lockout.TimeDiffIsElapsed` | libtpms/src/tpm12/tpm_auth.c:415-423 | across any number of clock wraps, the two-branch difference of the 32-bit readings is the true elapsed time mod 2^32 |
| `Lockout.LockoutWindow` | libtpms/src/tpm12/tpm_auth.c:395-433 | the lock-out is active exactly while the elapsed time mod 2^32 is below the wait time, with exactly the remainder reported; so it comes back 2^32 seconds after the failure |
| `Lockout.LockoutLasts` | libtpms/src/tpm12/tpm_auth.c:395-433 | with 6+j failures, j up to 30, the lock-out lasts exactly 2^j seconds from the last failure, with exactly the remainder reported |
| `Lockout.TimeLeftCountsDown` | libtpms/src/tpm12/tpm_auth.c:395-433 | a reported timeLeft r reads r-s after s < r seconds and INACTIVE after r, over any clock wrap, while no new failure occurs |
| `Lockout.PassedGateWaited` | libtpms/src/tpm12/tpm_auth.c:444-465 | past the threshold, a command let through has waited the whole period in true seconds |
| `Lockout.ComparesIff` | libtpms/src/tpm12/tpm_admin.c:1865-1925 | an authorization is looked at exactly when the TPM works, the command was read and its session found, and the lock-out is over or the command is a TPM_ResetLockValue that has not failed during it |
| `Lockout.StepCodes` | libtpms/src/tpm12/tpm_auth.c:270-465 | the code of an accepted, a failed and a locked-out command; the fatal code, and nothing else, stops the TPM |
| `Lockout.StoppedForGood` | libtpms/src/tpm12/tpm_store.c:410-440 | over every run, a stopped TPM stays stopped and looks at no authorization |
| `Lockout.ResetEffect` | libtpms/src/tpm12/tpm_admin.c:1925-1952 | a good TPM_ResetLockValue clears the count and ends the lock-out at every moment; a bad one counts, restarts the clock and disables itself |
| `Lockout.GateReenables` | libtpms/src/tpm12/tpm_auth.c:444-465 | TPM_ResetLockValue is enabled again by exactly the commands that pass the gate |
| `Lockout.FewFailuresStayOpen` | libtpms/src/tpm12/tpm_auth.c:347-465 | no run of any commands comes to a lock-out before the sixth failure since the count was zero |
| `Lockout.GatedEffect` | libtpms/src/tpm12/tpm_auth.c:347-465 | one gated command: a failure counts, came late enough and restarts the clock; anything else leaves counter and clock |
| `Lockout.RunIsDelayed` | libtpms/src/tpm12/tpm_auth.c:347-465 | in every run without TPM_ResetLockValue, each failure comes the doubling delay after the one before |
| `Lockout.DoublingLockout` | libtpms/src/tpm12/tpm_auth.c:347-465 | in every run of gated commands, the failure that makes the count 6+j comes at least 2^min(j,31) - 1 true seconds after the one that made it 6 |
| `Lockout.CountIsFailures` | libtpms/src/tpm12/tpm_auth.c:347-375 | without resets the final count is the initial one plus the number of failed authorizations, mod 2^32 |
| `Lockout.DisabledFreezes` | libtpms/src/tpm12/tpm_admin.c:1865-1952 | while TPM_ResetLockValue is disabled and the lock-out runs, no command of any run changes the count or its clock |
| `Lockout.OneResetPerLockout` | libtpms/src/tpm12/tpm_admin.c:1865-1952 | between two moments without lock-out, the count changes at most once and at most one authorization fails |
| `Lockout.ClearedStays` | libtpms/src/tpm12/tpm_admin.c:1934-1952 | after a good reset nothing gated is refused, so a run that stays locked has no further change |
| `Auth.FindsOwnSlot` | libtpms/src/tpm12/tpm_session.c:646-670 | handles being distinct, a look-up finds the session's own slot or none, whichever other sessions are gone |
| `Auth.MessageBytes` | libtpms/src/tpm12/tpm_auth.c:284-300 | what is under the HMAC, byte by byte: command digest, stored nonce, caller's nonce, continue flag |
| `Auth.AcceptsIff` | libtpms/src/tpm12/tpm_auth.c:270-312 | a command is accepted exactly when it gets to its session, which is open, and carries the HMAC of its message under the session's nonce |
| `Auth.SucceedsIff` | libtpms/src/tpm12/tpm_admin.c:841-1025 | it succeeds exactly when it is accepted and every later step goes well |
| `Auth.RefusalCode` | libtpms/src/tpm12/tpm_admin.c:841-960 | which of the possible errors a command past the gate is refused with |
| `Auth.SessionAfterAccept` | libtpms/src/tpm12/tpm_admin.c:1015-1023 | the session is kept, in its place and with the new nonce, exactly when the command completes, the continue flag is set and nothing ended the session; other sessions change only by being deleted |
| `Auth.SessionAfterRefusal` | libtpms/src/tpm12/tpm_admin.c:1015-1023 | a command refused after its parameters were read ends its own session and no other; one refused before ends none |
| `Auth.NextIsAccepted` | libtpms/src/tpm12/tpm_auth.c:193-312 | after a command that keeps its session, the next one is accepted if it uses the nonce of the response and the lock-out is over |
| `Auth.OpensIff` | libtpms/src/tpm12/tpm_session.c:1405-1542 | TPM_OIAP succeeds exactly with a free slot and an unused handle; then the session can be found with its nonce, and no open session is touched |
| `Auth.AcceptSpendsNonce` | libtpms/src/tpm12/tpm_admin.c:947-1023 | after an accepted check the even nonce is gone from the table, replaced by a fresh one or terminated with its session, also on every error path |
| `Auth.EventKeeps` | libtpms/src/tpm12/tpm_auth.c:193-312 | every event keeps open nonces and handles distinct, and what it accepts was never accepted against before |
| `Auth.NoncesAreSpentOnce` | libtpms/src/tpm12/tpm_auth.c:193-312 | over every run with fresh nonces no even nonce is accepted against twice |
| `Auth.AcceptancesAreAuthentic` | libtpms/src/tpm12/tpm_auth.c:270-312 | whatever a run accepts carried the HMAC of its own command digest, nonces and flag |
| `Auth.NoReplay` | libtpms/src/tpm12/tpm_auth.c:193-312 | in every run over any number of sessions, accepting one (inParamDigest, nonceOdd, continue, authData) twice exhibits an HMAC collision on the two different messages checked |
| `Auth.LockoutOfRun` | libtpms/src/tpm12/tpm_auth.c:270-465 | the lock-out fields of the session machine take exactly the steps of module `Lockout`, so its run theorems carry over |
| `Auth.ResetUnlocks` | libtpms/src/tpm12/tpm_admin.c:1944-1952 | after an accepted TPM_ResetLockValue, in every run of sessions and commands, no gated command is refused for the lock-out before a sixth failure |
| `Auth.TpmAuth.GetEntry` | libtpms/src/tpm12/tpm_session.c:646-670 | finds the first open session of the handle, or the table size |
| `Auth.TpmAuth.TerminateSession` | libtpms/src/tpm12/tpm_session.c:899-915 | resets that one slot and changes nothing else |
| `Auth.TpmAuth.DaState` | libtpms/src/tpm12/tpm_auth.c:381-435 | refines the lock-out state on values, clock failure included |
| `Auth.TpmAuth.CheckGate` | libtpms/src/tpm12/tpm_auth.c:444-465 | refuses while locked out; otherwise re-enables TPM_ResetLockValue and changes nothing else |
| `Auth.TpmAuth.RecordFailure` | libtpms/src/tpm12/tpm_auth.c:347-375 | counts one failure with 32-bit wrap and records the time past the threshold |
| `Auth.TpmAuth.Authorize` | libtpms/src/tpm12/tpm_auth.c:270-312 | a failure is recorded exactly when session and HMAC computation are good and the HMAC differs; a fatal code takes precedence |
| `Auth.TpmAuth.KillSlots` | libtpms/src/tpm12/tpm_session.c:927-967 | resets exactly the sessions of the deleted entity |
| `Auth.TpmAuth.Respond` | libtpms/src/tpm12/tpm_admin.c:972-1023 | new nonce and termination after an accepted check, in the order of the code |
| `Auth.TpmAuth.FreeSlot` | libtpms/src/tpm12/tpm_session.c:520-533 | the first session slot that is not in use, or none |
| `Auth.TpmAuth.Oiap` | libtpms/src/tpm12/tpm_session.c:1405-1542 | opens the first free slot under a handle no open session has, or leaves no session behind |
| `Auth.TpmAuth.Perform` | libtpms/src/tpm12/tpm_admin.c:1901-1952 | the ordinal from the session look-up on, for both kinds: a disabled reset checks nothing, a failed one disables itself, a good one clears the count |
| `Auth.TpmAuth.Run` | libtpms/src/tpm12/tpm_admin.c:841-1025 | a whole one-session ordinal refines the step the run theorems are about; TPM_ResetLockValue as its variant |
| `Counters.MaxCount` | libtpms/src/tpm12/tpm_counter.c:201-216 | is the largest count over created and released slots |
| `Counters.CreateIsFreshIff` | libtpms/src/tpm12/tpm_counter.c:201-216 | a new counter starts above all counts in the table exactly while the maximum is not 2^32-1 |
| `Counters.CreateLowersIff` | libtpms/src/tpm12/tpm_counter.c:648-671 | a creation lowers a count in NV exactly when it is stored, some count is 2^32-1 and the slot it takes has counted before |
| `Counters.IncrementLowersIff` | libtpms/src/tpm12/tpm_counter.c:851-922 | an increment lowers a count in NV exactly when it is carried out and stored for a counter that stands at 2^32-1 |
| `Counters.LowersIff` | libtpms/src/tpm12/tpm_counter.c:507-1565 | of all commands, restarts and failures exactly those two lower a count in NV |
| `Counters.WrapReportsZero` | libtpms/src/tpm12/tpm_counter.c:915-922 | the increment that meets the wrap reports 0 and leaves 0 in NV |
| `Counters.WrapExample` | libtpms/src/tpm12/tpm_counter.c:915-922 | a state and an increment that meet the wrap |
| `Counters.CreateKeeps` | libtpms/src/tpm12/tpm_counter.c:507-741 | a reported new counter took a free slot, with the given label and secret and one more than the largest count mod 2^32; NV holds it, no other slot is disturbed, and it is above every count in NV exactly while the maximum is not 2^32-1 |
| `Counters.IncrementKeeps` | libtpms/src/tpm12/tpm_counter.c:756-984 | a reported increment is of the named, created counter, by exactly one mod 2^32, with its label and secret and all other slots kept |
| `Counters.ReleaseKeeps` | libtpms/src/tpm12/tpm_counter.c:276-292 | releasing one counter or all, also when it fails, keeps every count in NV and reports nothing |
| `Counters.SucceedsIff` | libtpms/src/tpm12/tpm_counter.c:507-1565 | exactly when each command succeeds, and that exactly the successful ones that name a count report one |
| `Counters.Refusals` | libtpms/src/tpm12/tpm_counter.c:165-193 | no ninth counter, and no increment of a counter that is not the active one; nothing changes |
| `Counters.ReleaseEffect` | libtpms/src/tpm12/tpm_counter.c:471-490 | a released counter is invalid and without its secret, in memory and NV, with label and count kept and every other slot as before |
| `Counters.OwnerClearEffect` | libtpms/src/tpm12/tpm_owner.c:1055-1061 | after a successful TPM_OwnerClear no id is valid, no secret is left, labels and counts remain, and no counter is active |
| `Counters.RestartEffect` | libtpms/src/tpm12/tpm_init.c:620-644 | a restart brings back NV, and then exactly the counters there can be incremented |
| `Counters.StoreFailureIsFatal` | libtpms/src/tpm12/tpm_permanent.c:1148-1243 | a command whose changes cannot be stored returns the fatal code, leaves NV, and everything fails until a restart |
| `Counters.StepKeeps` | libtpms/src/tpm12/tpm_counter.c:507-1565 | every command, restart and NV failure keeps memory equal to NV outside the failure state, and reports only what NV holds |
| `Counters.CountsRise` | libtpms/src/tpm12/tpm_counter.c:165-292 | over every stretch of a run in which no call meets the wrap, no count in NV goes down |
| `Counters.CountsNeverDecrease` | libtpms/src/tpm12/tpm_counter.c:165-292 | in every run, no step lowers a count in NV if and only if no call meets the wrap |
| `Counters.ReportsRise` | libtpms/src/tpm12/tpm_counter.c:915-984 | over every run, restarts and NV failures included, a counter never reports less than before unless a call in between met the wrap |
| `Counters.CountsNeverRepeat` | libtpms/src/tpm12/tpm_counter.c:165-216 | over every run, a counter created while the maximum is below 2^32-1 starts above every count reported before by any counter, released ones included, unless a call in between met the wrap |
| `Counters.TakesIff` | libtpms/src/tpm12/tpm_counter.c:165-193 | a creation reports a slot exactly when it takes it, unless its response fails |
| `Counters.NoSuchCounter` | libtpms/src/tpm12/tpm_counter.c:221-264 | reading, incrementing or releasing an id that is not valid fails with BAD_COUNTER, after an owner's authorization, and changes nothing |
| `Counters.ReleasedIsGone` | libtpms/src/tpm12/tpm_counter.c:1255-1276 | over every run after a release, restarts included, reading, incrementing and releasing that id fail until a new counter is created in its slot |
| `Counters.ActiveStep` | libtpms/src/tpm12/tpm_counter.c:851-922 | within a boot the active id stays, or becomes illegal when its counter is released |
| `Counters.ActiveIsFixed` | libtpms/src/tpm12/tpm_counter.c:851-922 | once a counter is active, every later increment of the boot is of that counter |
| `Counters.OneCounterPerBoot` | libtpms/src/tpm12/tpm_counter.c:851-922 | between two clears of the active id all increments carried out name one counter |
| `Counters.ReleasedActiveBlocks` | libtpms/src/tpm12/tpm_counter.c:1264-1276 | after the active counter is released no increment of any id is carried out until the next clear, not of a re-created slot and not of the illegal id |
| `Counters.CounterTable.GetNextCount` | libtpms/src/tpm12/tpm_counter.c:201-216 | one more than the maximum over all slots, mod 2^32 |
| `Counters.CounterTable.GetNewHandle` | libtpms/src/tpm12/tpm_counter.c:165-193 | the first free slot, or none |
| `Counters.CounterTable.ReleaseEach` | libtpms/src/tpm12/tpm_counter.c:276-292 | releases exactly the created counters, keeping counts and labels |
| `Counters.CounterTable.Store` | libtpms/src/tpm12/tpm_permanent.c:1148-1243 | writes through on success, rolls the table back to NV on error, and is fatal when that fails |
| `Counters.CounterTable.CreateCounter` | libtpms/src/tpm12/tpm_counter.c:507-741 | refines the create step |
| `Counters.CounterTable.IncrementCounter` | libtpms/src/tpm12/tpm_counter.c:756-984 | refines the increment step |
| `Counters.CounterTable.ReleaseCounter` | libtpms/src/tpm12/tpm_counter.c:1120-1340 | refines the release step, in the order of checks of the plain and of the owner's form |
| `Counters.CounterTable.ClearOwner` | libtpms/src/tpm12/tpm_owner.c:924-1109 | refines the counter part of TPM_OwnerClear |
| `NumberTheory.Euclid` | libtpms/src/tpm12/tpm_crypto.c:1404-1458 | a prime that divides a product divides a factor; needed for the recovered key to work |
| `NumberTheory.Fermat` | libtpms/src/tpm12/tpm_crypto.c:1404-1458 | a^(p-1) is 1 mod a prime p that does not divide a |
| `Rsa.ModInverse` | libtpms/src/tpm12/tpm_crypto.c:1450-1458 | the inverse as a residue if there is one, and none otherwise |
| `Rsa.BinRoundTrip` | libtpms/src/tpm12/tpm_cryptoh.c:1431-1471 | a number that fits the padded length reads back from its bytes |
| `Rsa.FromBinAppend` | libtpms/src/tpm12/tpm_crypto.c:1392-1403 | byte strings are read as big-endian numbers |
| `Rsa.NumBytesIff` | libtpms/src/tpm12/tpm_cryptoh.c:1431-1471 | a number fits k bytes exactly when it is below 256^k |
| `Rsa.InverseUnique` | libtpms/src/tpm12/tpm_crypto.c:1450-1458 | the private exponent is determined by e and the modulus |
| `Rsa.RecoverIsPrivateKey` | libtpms/src/tpm12/tpm_crypto.c:1404-1458 | (q, d) is recovered if and only if p*q = n and d is the inverse of e mod (p-1)(q-1) |
| `Rsa.ToBinMalloc` | libtpms/src/tpm12/tpm_cryptoh.c:1431-1471 | with a pad length or, for 0, without padding: succeeds exactly when the number fits and the length is allocatable, and reads back |
| `Rsa.RecoverNumbers` | libtpms/src/tpm12/tpm_crypto.c:1404-1458 | the BIGNUM steps yield a private key of (n, e, p) whenever they succeed |
| `Rsa.GetPrivateKey` | libtpms/src/tpm12/tpm_crypto.c:1324-1481 | on byte strings: succeeds exactly when the numbers exist and fit the sizes of p and n, and the bytes returned are those of a private key |
| `Rsa.RecoveredKeyDecrypts` | libtpms/src/tpm12/tpm_crypto.c:1404-1458 | for distinct primes every m < n satisfies (m^e mod n)^d mod n = m |
| `Rsa.SquareModulusLosesP` | libtpms/src/tpm12/tpm_crypto.c:1404-1458 | with n = p*p and e other than 1 the recovered key turns the message p into 0 |
| `Rsa.SquareModulusExample` | libtpms/src/tpm12/tpm_crypto.c:1404-1458 | such a key: n = 9, e = 3, p = 3, with d = 3 |
| `Rsa.DecryptsIffDistinct` | libtpms/src/tpm12/tpm_crypto.c:1404-1458 | for prime factors the recovered key decrypts every message if and only if p and q differ or e is 1 |
| `Cbc.DecryptUndoesEncrypt` | libtpms/src/tpm12/tpm_crypto.c:2825-2835 | chained decryption inverts chained encryption for every permutation |
| `Cbc.EncryptUndoesDecrypt` | libtpms/src/tpm12/tpm_crypto.c:2876-2889 | and the other way round |
| `Cbc.CiphertextBlock` | libtpms/src/tpm12/tpm_crypto.c:2817-2835 | block i of the ciphertext is the cipher of the bitwise exclusive or of block i of the padded message with ciphertext block i-1, or with sixteen zero bytes |
| `Cbc.PlaintextBlock` | libtpms/src/tpm12/tpm_crypto.c:2876-2889 | block i of the decryption is the bitwise exclusive or of the deciphered block with the ciphertext block before it, or with sixteen zero bytes |
| `Cbc.PadIff` | libtpms/src/tpm12/tpm_crypto.c:2806-2824 | the padded message, and nothing else, is the message and 1 to 16 bytes up to a multiple of 16 that each hold their own number |
| `Cbc.StripIffPad` | libtpms/src/tpm12/tpm_crypto.c:2890-2915 | the padding checks accept exactly the padded messages, with their own message |
| `Cbc.EncryptSucceedsIff` | libtpms/src/tpm12/tpm_crypto.c:2806-2814 | encryption succeeds exactly when the padded length is within the allocation limit, also where the 32-bit length wraps |
| `Cbc.DecryptsIffEncrypts` | libtpms/src/tpm12/tpm_crypto.c:2790-2917 | a block-multiple ciphertext decrypts to m if and only if it is the encryption of m |
| `Cbc.RoundTrip` | libtpms/src/tpm12/tpm_crypto.c:2790-2917 | every message within the limit encrypts, and its ciphertext decrypts to it |
| `Cbc.DecryptsIff` | libtpms/src/tpm12/tpm_crypto.c:2849-2917 | for ciphertexts of any length: decrypts to m if and only if it and the bytes beyond it are the encryption of m, a padding and some tail |
| `Cbc.AcceptsOnlyEncryptionsIff` | libtpms/src/tpm12/tpm_crypto.c:2849-2917 | at a given length all that is accepted is an encryption if and only if the length is a multiple of 16, which the code does not check |
| `Cbc.CbcEncrypt` | libtpms/src/tpm12/tpm_crypto.c:2825-2835 | the block loop equals the recursive chain from a zero vector |
| `Cbc.CbcDecrypt` | libtpms/src/tpm12/tpm_crypto.c:2876-2889 | the same for decryption, a last block that is not whole being completed from beyond the ciphertext |
| `Cbc.Encrypt` | libtpms/src/tpm12/tpm_crypto.c:2790-2841 | pads, checks the size, and chains |
| `Cbc.Decrypt` | libtpms/src/tpm12/tpm_crypto.c:2849-2917 | for every length, the checks in the order of the code, with the padding examined byte by byte, equal the specification |
| `Bytes.XorIff` | libtpms/src/tpm12/tpm_cryptoh.c:1247-1258 | a byte is the exclusive or of two others exactly when each bit is set where theirs differ |
| `Bytes.XorWeights` | libtpms/src/tpm12/tpm_cryptoh.c:1247-1258 | the same by the weights of the bits |
| `Bytes.XorLaws` | libtpms/src/tpm12/tpm_cryptoh.c:1247-1258 | zero is neutral, every byte its own inverse, and the order does not matter |
| `Ctr.CryptByte` | libtpms/src/tpm12/tpm_crypto.c:2981-3017 | byte i of the result is the bitwise exclusive or of byte i of the data with byte i mod 16 of the cipher of the block whose last four bytes are the counter's big-endian number plus i/16 mod 2^32 |
| `Ctr.CryptTwice` | libtpms/src/tpm12/tpm_crypto.c:2928-3017 | applying it twice gives the data back |
| `Ctr.CounterBlockRepeatsIff` | libtpms/src/tpm12/tpm_crypto.c:3008-3014 | two counter blocks are equal exactly when their numbers agree mod 2^32 |
| `Ctr.NoBlockReuse` | libtpms/src/tpm12/tpm_crypto.c:2981-3017 | within one call no key-stream block is used twice, because a 32-bit size means at most 2^28 blocks |
| `Ctr.XorInto` | libtpms/src/tpm12/tpm_cryptoh.c:1247-1258 | xors exactly the given span, also when input and output are one array |
| `Ctr.Increment` | libtpms/src/tpm12/tpm_crypto.c:3008-3014 | steps the low four bytes of the counter in place to the next counter block |
| `Ctr.CtrEncrypt` | libtpms/src/tpm12/tpm_crypto.c:2981-3017 | the loop equals the closed form for every length, in place or not, and writes nothing beyond it |
| `Ctr.CtrCrypt` | libtpms/src/tpm12/tpm_crypto.c:2928-2973 | refuses short keys and counters without touching the output, and otherwise is the closed form under their first 16 bytes |
| `AuditStatus.WriteOneBits` | libtpms/src/tpm12/tpm_audit.c:357-376 | setting or clearing one bit sets that bit and keeps every other |
| `AuditStatus.AuditedBit` | libtpms/src/tpm12/tpm_audit.c:282-318 | where the bit of each ordinal is, in the map and in the TSC byte |
| `AuditStatus.WriteBit` | libtpms/src/tpm12/tpm_audit.c:357-376 | a change in the bit map changes membership of its ordinal and of no other ordinal |
| `AuditStatus.AscendingUnique` | libtpms/src/tpm12/tpm_audit.c:229-277 | an ascending list is determined by its members, so order and membership fix the stored list |
| `AuditStatus.Status.Get` | libtpms/src/tpm12/tpm_audit.c:282-318 | membership in the set, and an error exactly for ordinals without a place |
| `AuditStatus.Status.Set` | libtpms/src/tpm12/tpm_audit.c:330-418 | inserts or removes exactly one ordinal, keeps audited within auditable, and reports `altered` exactly on a change, except that clearing ResetEstablishmentBit never does |
| `AuditStatus.Status.Init` | libtpms/src/tpm12/tpm_audit.c:197-224 | the set becomes exactly the defaults, and fails exactly when a default is not auditable |
| `AuditStatus.Status.Store` | libtpms/src/tpm12/tpm_audit.c:229-277 | strictly ascending, and holds exactly the audited ordinals from the start ordinal on and the audited TSC ordinals |
| `AuditLog.SerializeInjective` | libtpms/src/tpm12/tpm_audit.c:82-165 | different events, inputs and outputs included, have different 32-byte encodings |
| `AuditLog.EventFields` | libtpms/src/tpm12/tpm_counter.c:405-424 | tag, digest, label and count sit at fixed offsets and read back |
| `AuditLog.ExtendHashes` | libtpms/src/tpm12/tpm_audit.c:429-523 | the 52 bytes an extension hashes: old digest, event tag, parameter digest, and the tagged label and count of the audit counter |
| `AuditLog.ChainFixesLog` | libtpms/src/tpm12/tpm_audit.c:429-523 | two event sequences with one digest are equal, or two inputs really hashed collide, or one hashes to the start value |
| `AuditLog.RunIsChain` | libtpms/src/tpm12/tpm_process.c:3243-3350 | the digest after a run of audited commands is the chain over its events |
| `AuditLog.EventsFixRun` | libtpms/src/tpm12/tpm_process.c:3243-3350 | the event log parses back into one sequence of commands only |
| `AuditLog.SessionHasOneCounter` | libtpms/src/tpm12/tpm_process.c:3243-3350 | from the all-zero digest the first command raises the audit counter by one, and all events of the session carry that value |
| `AuditLog.DigestFixesSession` | libtpms/src/tpm12/tpm_process.c:3243-3350 | two audit sessions with one digest audited the same commands under the same counter value, or the hash failed on what they hashed |
| `AuditLog.AuditState.ExtendIn` | libtpms/src/tpm12/tpm_audit.c:429-473 | digest becomes the hash of the old one and the tagged input event |
| `AuditLog.AuditState.ExtendOut` | libtpms/src/tpm12/tpm_audit.c:480-523 | the same for the output event |
| `AuditLog.AuditState.ProcessAudit` | libtpms/src/tpm12/tpm_process.c:3243-3350 | one command refines the audit step: a zero digest first steps and stores the counter, and failure there leaves the digest and is fatal |
| `StateCache.NamesInverse` | libtpms/src/tpm_library.c:678-702 | name and type mappings are inverse, so no name reaches another type's slot |
| `StateCache.DeliveryHasSource` | libtpms/src/tpm_nvfile.c:155-185 | in every run, a delivered blob was set by one earlier call for exactly that type, under the version still chosen, with nothing touching the slot in between |
| `StateCache.DeliveredOnce` | libtpms/src/tpm_library.c:634-644 | no set blob is delivered twice |
| `StateCache.SourceIsDelivered` | libtpms/src/tpm_nvfile.c:171-185 | conversely, the last blob set for a type is what its next load delivers |
| `StateCache.LoadConsumes` | libtpms/src/tpm_nvfile.c:171-185 | whatever a load returned, the next one of that type falls through to the file if nothing was set since |
| `StateCache.EmptyIsRetried` | libtpms/src/tpm_library.c:622-632 | setting a type to NULL, at any time, makes its next load report that there is no state yet |
| `StateCache.PutIff` | libtpms/src/tpm_tpm12_interface.c:436-511 | exactly when a blob is taken, for both versions |
| `StateCache.PutEffect` | libtpms/src/tpm_tpm2_interface.c:780-845 | a taken blob changes its own slot, a refused check empties the cache, a running TPM or an early failure leaves it |
| `StateCache.VersionLocked` | libtpms/src/tpm_library.c:138-154 | from initialization until termination the version cannot change |
| `StateCache.TerminatedIsFree` | libtpms/src/tpm_library.c:149-154 | after termination either version can be chosen, and the cache survives exactly if it is the same |
| `StateCache.RunningRefuses` | libtpms/src/tpm_tpm12_interface.c:449-450 | from coming up until it is terminated or initialized again, the TPM refuses every blob without change |
| `StateCache.GetForesees` | libtpms/src/tpm_tpm12_interface.c:370-397 | while the TPM is down, getting the state answers as the next load would, and changes nothing |
| `StateCache.CopyIsDeliveredLater` | libtpms/src/tpm_tpm12_interface.c:370-397 | getting the state while the TPM is down copies the set blob and leaves it for the next load |
| `StateCache.VersionHolds` | libtpms/src/tpm_library.c:110-136 | the version does not change while a slot is untouched |
| `StateCache.Library.SetCachedState` | libtpms/src/tpm_library.c:626-632 | sets one slot to the blob, or to empty for NULL, and keeps the others |
| `StateCache.Library.GetCachedState` | libtpms/src/tpm_library.c:634-644 | hands out one slot, telling empty from absent, and leaves it absent |
| `StateCache.Library.CopyCachedState` | libtpms/src/tpm_library.c:651-676 | copies without consuming; fails only for want of memory |
| `StateCache.Library.LoadData` | libtpms/src/tpm_nvfile.c:155-185 | consumes the slot of its name, or falls through |
| `StateCache.Library.LoadPermanentPreserving` | libtpms/src/tpm_tpm12_interface.c:344-362 | whatever the loader returns, the cache is as before |
| `StateCache.Library.SetStateBlob` | libtpms/src/tpm_tpm12_interface.c:436-511 | for both versions: success changes its own slot only; a refused blob clears the cache; a running TPM refuses without change |
| `StateCache.Library.GetStateBlob` | libtpms/src/tpm_tpm2_interface.c:725-750 | cache before file, nothing consumed, for both versions |
| `StateCache.Library.ClearAllCachedState` | libtpms/src/tpm_library.c:608-620 | all slots absent, version and lock untouched |
| `StateCache.Library.ChooseTPMVersion` | libtpms/src/tpm_library.c:110-136 | refused while locked; a change of version empties the cache, choosing the same version keeps it |
| `PersistentStore.RoomLeftMeansComplete` | libtpms/src/tpm_tpm2_interface.c:249-285 | if no chunk exceeds 64 KiB, 64 KiB left over prove that no chunk was dropped |
| `PersistentStore.EnoughRoomIsComplete` | libtpms/src/tpm_tpm2_interface.c:249-285 | a buffer that can hold the state does hold it, so the loop ends |
| `PersistentStore.WrittenTellsCompleteness` | libtpms/src/tpm_tpm2_interface.c:272-276 | the returned count is the length in the buffer exactly when nothing was dropped |
| `PersistentStore.ConcatAppend` | libtpms/src/tpm_tpm2_interface.c:272-276 | the whole state is all chunks, each once and in order |
| `PersistentStore.PersistentAllStore` | libtpms/src/tpm_tpm2_interface.c:249-285 | ends for every finite state with the whole state, or with an allocation failure at a size below a bound in the state; never the latter if those sizes can be had |
| `NvMemory.MoveBack` | wasm/wasm_platform.c:157-171 | a move carries its block intact, overlapping or not; moving back restores it, and exactly the span between is lost |
| `NvMemory.OutsideUntouched` | wasm/wasm_platform.c:139-171 | over every sequence of calls, a byte outside their footprints keeps its value |
| `NvMemory.PassesIff` | wasm/wasm_platform.c:139-146 | the range check passes exactly the spans in range and those whose end wraps 32 bits into range; it is exact while no sum wraps |
| `NvMemory.NoWrapIsDefined` | wasm/wasm_platform.c:139-171 | a call is carried out exactly when its spans lie in the array; without a wrap it is else refused |
| `NvMemory.ReadsBack` | wasm/wasm_platform.c:122-171 | what was written or moved can be read there, and a cleared span reads as 0xff |
| `NvMemory.Nv.Read` | wasm/wasm_platform.c:122-129 | for all offsets and sizes: refused, outside the array, or exactly the span |
| `NvMemory.Nv.Write` | wasm/wasm_platform.c:139-146 | the same outcomes; replaces exactly the span |
| `NvMemory.Nv.Clear` | wasm/wasm_platform.c:148-155 | the same outcomes; fills exactly the span with 0xff |
| `NvMemory.Nv.Move` | wasm/wasm_platform.c:157-171 | the same outcomes; source intact at the destination, exactly the vacated span zero, nothing else changed |
| `NvMemory.Nv.Perform` | wasm/wasm_platform.c:139-171 | any sequence of calls equals the byte-sequence model, refused calls included |
| `Wire.MemConcat` | wasm/wasm_platform.c:545-574 | the joined parts up to the NULL, every copy within the buffer; no result only when an allocation failed |
| `Wire.ReadHeaderOf` | wasm/wasm_platform.c:511-526 | a header whose size is the length reads back |
| `Wire.ReadHeaderSize` | wasm/wasm_platform.c:511-526 | a request whose size field is not its length is not read |
| `Wire.ReadAuthOf` | wasm/wasm_platform.c:518-530 | the authorization area reads, field by field, as nine bytes of a password session without nonce, attributes and password |
| `Wire.PatchSize` | wasm/wasm_platform.c:723-723 | writes the size field and keeps every other byte |
| `NvWrite.DecodeEncode` | wasm/wasm_platform.c:702-723 | every request reads back as index, offset and chunk, with a header size equal to its length |
| `NvWrite.RequestBytes` | wasm/wasm_platform.c:702-723 | every byte of the request: tag, its length, command code, handles, authorization, size, chunk and offset |
| `NvWrite.LaidIsPrefix` | wasm/wasm_platform.c:702-728 | up to 2^16 bytes, k chunks sent to an index at least as large leave exactly the first k chunks in place and the rest as before |
| `NvWrite.LastPosition` | wasm/wasm_platform.c:711-711 | above 2^16 bytes the last chunk goes to an earlier place than its own |
| `NvWrite.LaidIsDataIff` | wasm/wasm_platform.c:691-730 | all chunks together reproduce all data of a size, over any earlier contents, if and only if the size is at most 2^16 |
| `NvWrite.WriteOutcome` | wasm/wasm_platform.c:691-730 | for an index of the size of the data, up to 2^16 bytes: no chunk is out of range, and the contents after k chunks and after all |
| `NvWrite.Build` | wasm/wasm_platform.c:702-723 | the request built in place is the encoding and reads back |
| `NvWrite.SendChunk` | wasm/wasm_platform.c:714-726 | a good answer means exactly this chunk was written; an error leaves the area and is the TPM's, the range's or the allocator's |
| `NvWrite.NvWriteAll` | wasm/wasm_platform.c:691-730 | for data and an index of any size: returns 0 exactly when all chunks were sent; an error at chunk k is explained and leaves exactly the first k chunks laid down; with equal sizes up to 2^16 the area then is the data |
| `CreatePrimary.DecodeEncode` | wasm/wasm_platform.c:761-800 | a request reads back as its handle and template exactly when the public area is below 2^16 bytes; a longer one does not read at all |
| `CreatePrimary.RequestBytes` | wasm/wasm_platform.c:776-800 | every byte of the request around its public area, authorization, empty sensitive part and tail included |
| `CreatePrimary.DecodePublicOf` | wasm/wasm_platform.c:761-773 | the public area reads back as its template |
| `CreatePrimary.BuildPublic` | wasm/wasm_platform.c:761-774 | the concatenated area is the encoding of the template |
| `CreatePrimary.Build` | wasm/wasm_platform.c:761-800 | the request built is the encoding, for every template |
| `CreatePrimary.ResponseFields` | wasm/wasm_platform.c:806-831 | handle, key size and key of a well-formed response are where they are looked for |
| `CreatePrimary.ExtractsIff` | wasm/wasm_platform.c:806-828 | exactly which buffers and lengths count as an answer, and what is taken from them |
| `CreatePrimary.ExtractFindsKey` | wasm/wasm_platform.c:806-831 | from any well-formed response of at most 4096 bytes that echoes the template, offset 30 + policyLen + parmsLen yields exactly the key and its handle, whatever the buffer held before |
| `CreatePrimary.InsideIff` | wasm/wasm_platform.c:817-828 | exactly when no read goes beyond the 4096-byte buffer, whatever it holds; in particular for every reported length up to 4096 |
| `CreatePrimary.CreatorsStayInside` | wasm/wasm_platform.c:839-919 | none of the nine key creators reads beyond the buffer, whatever length is reported |
| `CreatePrimary.ExtractNeedsLimit` | wasm/wasm_platform.c:580-606 | for every template and key, the extraction is right for every earlier buffer content if and only if the response is at most 4096 bytes |

## Left out

- OpenSSL, EVP, X.509 and JavaScript bridge internals: AES, HMAC and SHA-1 are arbitrary functions, BIGNUM operations are integer operations.
- File I/O beyond the cache look-up of the loader, logging and debug printing.
- Parameter parsing, tag checks and response framing: modelled once, as result codes around the generic steps, not per ordinal. That storing the ten-byte response header itself fails is not modelled.
- Ordinals with two authorization sessions, opening sessions with TPM_OSAP and TPM_DSAP, and saving and loading session contexts.
- TPM_Startup with a saved state, and that TPM_OwnerClear and TPM_Startup also clear the failure count: runs in `Lockout` do not contain them.
- Lockout.WaitTime: for shift counts of 31 and more, which C leaves undefined, the wait time is any 32-bit value.
- Auth.NoReplay: freshness of the nonces a run draws is an assumption on the random number generator.
- The counter's `digest` field, and loading and storing counter structures; the NV image is the table itself.
- Counters.CountsNeverRepeat: does not cover a counter created at a maximum of 2^32-1, which starts at 0; `CreateKeeps` and `LowersIff` state what happens there.
- Rsa.ModInverse: the library's algorithm is not modelled, only its result, with moduli 0 and 1 refused.
- Cbc.Decrypt: how the library treats a last block that is not whole is not visible here; the model decrypts it with the bytes that follow in memory, which are arbitrary.
- Cbc.Encrypt, Rsa.ToBinMalloc: an allocation within the limit succeeds.
- Digests of commands wrapped in encrypted transport, and the contents of the signed audit digest response.
- The TIS hash sequence (libtpms/src/tpm_tpm12_tis.c) and SHA-1 context serialization.
- StateCache.Library.SetCachedState: a blob of 2^32-1 bytes, whose length is the mark of the empty state, is excluded by the type of blobs; the code asserts against it.
- PersistentStore.PersistentAllStore: the chunk limit of 64 KiB is an assumption on the marshalling functions, as in the code's own comment; that no buffer of 2^31 bytes or more can be had is one on the allocator.
- NvMemory.Nv.Write, NvMemory.Nv.Read, NvMemory.Nv.Clear, NvMemory.Nv.Move: what an access outside the array does is undefined and has no effect in the model; a failing `assert` counts as the refusal that follows it.
- CreatePrimary.ExtractFindsKey: the handle is handed out even where the key then fails; the model returns both or none.
- Running TPM state in TPMLIB_GetState, TPM 2.0 command internals, JSON information, property getters, buffer-size limits and the JavaScript wrapper.
- Where comment and code differ the model follows the code: the outsideInfo size and PCR count are described as fields of 4 and 2 bytes (wasm/wasm_platform.c:786-789), while a TPM reads the same six zero bytes as 2 and 4; and `altered` is documented as set on any change (libtpms/src/tpm12/tpm_audit.c:320-329), while clearing ResetEstablishmentBit does not set it.
