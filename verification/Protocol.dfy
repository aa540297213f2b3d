/** The sizes both ends of a connection agree on. */
module Protocol {
  /** Bytes of a request frame and of a response frame. */
  const INBOUND_SIZE := 72
  const OUTBOUND_SIZE := 32

  /** Requests in flight per connection. */
  const PIPELINE_DEPTH := 32
}
