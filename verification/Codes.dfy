/** Return codes of the TPM 1.2 code, as far as the model tells them apart. */
module Codes {

  datatype Option<+T> = None | Some(value: T)

  /** `Fail` is the fatal code: the final response then puts the TPM into the failure state. */
  datatype Rc = Success | AuthFail | Fail | DefendLockRunning | FailedSelfTest | Error(code: nat)

  const RESOURCES := Error(0x15)
  const INVALID_AUTHHANDLE := Error(0x22)
  const BAD_COUNTER := Error(0x45)

  /** The code style `if (rc == 0) rc = next();`. */
  function FirstError(a: Rc, b: Rc): Rc { if a != Success then a else b }
}
