/** Method types, policies and identifiers (tumbler.go), with the wire-format bounds. */
module Kinds {
  import opened Bytes

  const FORMAT_VERSION: byte := 1

  const METHOD_PASSWORD: byte := 1
  const METHOD_YUBIKEY: byte := 2
  const METHOD_PASSWORD_AND_YUBIKEY: byte := 3
  const METHOD_RECOVERY: byte := 4

  const POLICY_INVALID: byte := 0
  const POLICY_PASSWORD_ONLY: byte := 1
  const POLICY_PASSWORD_AND_YUBIKEY: byte := 2
  const POLICY_YUBIKEY_ONLY: byte := 3

  const AEAD_CHACHA20_POLY1305: byte := 1

  const KDF_NONE: byte := 0
  const KDF_ARGON2ID: byte := 1
  const KDF_SCRYPT: byte := 2

  const MAX_DEK_LEN: nat := 240
  const WRAPPED_OVERHEAD: nat := 16
  const MAX_ENVELOPE_LEN: nat := 0x10_0000
  const MAX_SLOT_COUNT: nat := 64
  const HEADER_LEN: nat := 8
  const SLOT_FIXED_LEN: nat := 13
  const MAX_CHALLENGE_LEN: nat := 64
  const MAX_LABEL_LEN: nat := 256
  const MAX_SALT_LEN: nat := 64
  const MAX_KDF_PARAMS_LEN: nat := 64
  const MAX_WRAPPED_LEN: nat := MAX_DEK_LEN + WRAPPED_OVERHEAD

  predicate MethodTypeValid(t: byte) {
    METHOD_PASSWORD <= t <= METHOD_RECOVERY
  }

  predicate PolicyValid(p: byte) {
    POLICY_PASSWORD_ONLY <= p <= POLICY_YUBIKEY_ONLY
  }

  function PolicyForMethod(t: byte): byte {
    if t == METHOD_PASSWORD then POLICY_PASSWORD_ONLY
    else if t == METHOD_YUBIKEY then POLICY_YUBIKEY_ONLY
    else if t == METHOD_PASSWORD_AND_YUBIKEY then POLICY_PASSWORD_AND_YUBIKEY
    else POLICY_INVALID
  }
}
