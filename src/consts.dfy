/**
 * The screen and configuration constants of the shared crate (common/src/consts.rs). The device
 * protocol, the device cache and the server's message store take their text limit from here:
 * 8 lines of 17 columns.
 */
module Consts {
  const TEXT_LINES: nat := 8
  const TEXT_COLUMNS: nat := 17
  /** `TEXT_LINES as u8 * TEXT_COLUMNS as u8`; 136 fits in a `u8`, so nothing wraps. */
  const TEXT_LENGTH: nat := TEXT_LINES * TEXT_COLUMNS
  const TEXT_BUFFER_SIZE: nat := TEXT_LENGTH

  const IMAGE_WIDTH: nat := 160
  const IMAGE_HEIGHT: nat := 128
  const IMAGE_BYTES_PER_PIXEL: nat := 2
  const IMAGE_BUFFER_SIZE: nat := IMAGE_HEIGHT * IMAGE_WIDTH * IMAGE_BYTES_PER_PIXEL

  const WIFI_SSID_LEN: nat := 64
  const WIFI_PW_LEN: nat := 64
}
