/** What both recording loops receive from the microphone stream. */
module Capture {
  /** One buffer of raw samples as `stream.read` returns it. */
  type Chunk = seq<bv8>
}
