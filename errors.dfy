/** The FINE device error codes and fine_strerror (src/jtag/fine.c). */
module Errors {

  const FINE_CMD_ERR_NOT_SUPPORTED: int := 0xC0
  const FINE_CMD_ERR_PACKET: int := 0xC1
  const FINE_CMD_ERR_CHECKSUM: int := 0xC2
  const FINE_CMD_ERR_FLOW: int := 0xC3
  const FINE_CMD_ERR_ADDRESS: int := 0xD0
  const FINE_CMD_ERR_INPUT_FREQU: int := 0xD1
  const FINE_CMD_ERR_SYS_CLK: int := 0xD2
  const FINE_CMD_ERR_AREA: int := 0xD5
  const FINE_CMD_ERR_BIT_RATE: int := 0xD4
  const FINE_CMD_ERR_ENDIAN: int := 0xD7
  const FINE_CMD_ERR_PROTECTION: int := 0xDA
  const FINE_CMD_ERR_WRONG_ID: int := 0xDB
  const FINE_CMD_ERR_SERIAL_CNX: int := 0xDC
  const FINE_CMD_ERR_NON_BLANK: int := 0xE0
  const FINE_CMD_ERR_ERASE: int := 0xE1
  const FINE_CMD_ERR_PROGRAM: int := 0xE2
  const FINE_CMD_ERR_FLASH_SEQ: int := 0xE7

  const UNKNOWN_ERROR: string := "unknown error"

  /** The codes the device reports that have a text of their own, with that text. */
  const Messages: map<int, string> := map[
    FINE_CMD_ERR_NOT_SUPPORTED := "command not supported",
    FINE_CMD_ERR_PACKET := "packet error",
    FINE_CMD_ERR_CHECKSUM := "checksum error",
    FINE_CMD_ERR_FLOW := "flow error",
    FINE_CMD_ERR_ADDRESS := "bad address",
    FINE_CMD_ERR_INPUT_FREQU := "bad input frequency",
    FINE_CMD_ERR_SYS_CLK := "bad system clock frequency",
    FINE_CMD_ERR_AREA := "area error",
    FINE_CMD_ERR_BIT_RATE := "bit rate error",
    FINE_CMD_ERR_ENDIAN := "endian error",
    FINE_CMD_ERR_PROTECTION := "protection error",
    FINE_CMD_ERR_WRONG_ID := "ID code mismatch error",
    FINE_CMD_ERR_SERIAL_CNX := "serial programmer connection prohibition error",
    FINE_CMD_ERR_NON_BLANK := "non-blank error",
    FINE_CMD_ERR_ERASE := "error of erasure",
    FINE_CMD_ERR_PROGRAM := "program error",
    FINE_CMD_ERR_FLASH_SEQ := "flash sequencer error"
  ]

  /** fine_strerror: the text for a device error code. */
  function StrError(code: int): (s: string)
    ensures s == if code in Messages then Messages[code] else UNKNOWN_ERROR
  {
    if code == FINE_CMD_ERR_NOT_SUPPORTED then "command not supported"
    else if code == FINE_CMD_ERR_PACKET then "packet error"
    else if code == FINE_CMD_ERR_CHECKSUM then "checksum error"
    else if code == FINE_CMD_ERR_FLOW then "flow error"
    else if code == FINE_CMD_ERR_ADDRESS then "bad address"
    else if code == FINE_CMD_ERR_INPUT_FREQU then "bad input frequency"
    else if code == FINE_CMD_ERR_SYS_CLK then "bad system clock frequency"
    else if code == FINE_CMD_ERR_AREA then "area error"
    else if code == FINE_CMD_ERR_BIT_RATE then "bit rate error"
    else if code == FINE_CMD_ERR_ENDIAN then "endian error"
    else if code == FINE_CMD_ERR_PROTECTION then "protection error"
    else if code == FINE_CMD_ERR_WRONG_ID then "ID code mismatch error"
    else if code == FINE_CMD_ERR_SERIAL_CNX then "serial programmer connection prohibition error"
    else if code == FINE_CMD_ERR_NON_BLANK then "non-blank error"
    else if code == FINE_CMD_ERR_ERASE then "error of erasure"
    else if code == FINE_CMD_ERR_PROGRAM then "program error"
    else if code == FINE_CMD_ERR_FLASH_SEQ then "flash sequencer error"
    else UNKNOWN_ERROR
  }

  /** A code gets the generic text exactly when it is not listed. */
  lemma StrErrorUnknown(code: int)
    ensures StrError(code) == UNKNOWN_ERROR <==> code !in Messages
  {
  }

  /** Two listed codes never share a text, so the text identifies the code. */
  lemma StrErrorInjective(a: int, b: int)
    requires StrError(a) == StrError(b) && StrError(a) != UNKNOWN_ERROR
    ensures a == b
  {
    assert a in Messages && b in Messages && Messages[a] == Messages[b];
  }

  /** The two codes the negotiation is most likely to meet. */
  lemma StrErrorExamples()
    ensures StrError(0xDB) == "ID code mismatch error"
    ensures StrError(0x00) == UNKNOWN_ERROR && StrError(0xD3) == UNKNOWN_ERROR
  {
  }
}
