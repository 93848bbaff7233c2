/** Build-time constants of camera.cpp. */
module Config {
  const LINE_LENGTH: nat := 160
  const LINE_COUNT: nat := 120
  /** The shipped line buffer holds one byte per pixel. */
  const LINE_BUFFER_LENGTH: nat := LINE_LENGTH
  const IS_SEND_WHILE_BUFFERING: bool := true
  /** Width and height as the 16-bit constants the new-frame command reads. */
  const LINE_LENGTH_16: bv16 := 160
  const LINE_COUNT_16: bv16 := 120
}
