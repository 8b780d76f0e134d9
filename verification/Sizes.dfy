/** Sizes that several parts of the system share. */
module Sizes {
  type dword = w: int | 0 <= w < 0x1_0000_0000

  const WORD32 := 0x1_0000_0000
  const NUM_TERM := 3
  const VIDEO_SIZE := 4096      // one page of video memory
  const NUM_KEYS := 128         // one key buffer
}
