/** The directions and the errors of the AES modes. */
module AesMode {
  const AES_ENCRYPT: int := 1
  const AES_DECRYPT: int := 0
  const ERR_AES_BAD_INPUT_DATA: int := -0x0021
  const ERR_AES_INVALID_INPUT_LENGTH: int := -0x0022

  predicate KnownMode(mode: int) {
    mode == AES_ENCRYPT || mode == AES_DECRYPT
  }
}
