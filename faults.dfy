/** The exceptions that can escape to the handler's top-level `except`. */
module Faults {

  datatype Fault =
    | DateOutOfRange   // OverflowError from `datetime` arithmetic
    | FeedUnavailable  // `feedparser.parse` itself raised
}
