/**
 * Error handling shared by every component of the keystroke-dynamics core.
 *
 * The Java code reports misuse by throwing. Two families matter to callers:
 * `KeystrokeException`, which the session director catches and turns into a
 * CORRUPTION notification, and everything else (`IllegalArgumentException`,
 * null dereferences, the statistics library's unknown-key error, a missing
 * template), which propagates. Here a throwing operation returns a `Result`
 * or an `Outcome` whose error says which exception the source would raise.
 */
module Failures {

  /** A Java reference that may be null: `None` stands for null. */
  datatype Option<+T> = None | Some(value: T)

  /** The value of an operation that either returns normally or throws. */
  datatype Result<+T> = Ok(value: T) | Err(error: Error)

  /** The outcome of a `void` operation that may throw. */
  datatype Outcome = Pass | Raise(error: Error)

  datatype Error =
    | NegativeStartTime    // IllegalArgumentException from the Keystroke constructor
    | NullLink             // IllegalArgumentException: setPrior(null) / setNext(null)
    | LinkAlreadySet       // KeystrokeException: prior or next set a second time
    | LinkOutOfOrder       // KeystrokeException: neighbour's start time on the wrong side
    | AlreadyReleased      // KeystrokeException: release called twice
    | ReleaseBeforeStart   // KeystrokeException: release time earlier than start time
    | NullKeystroke        // IllegalArgumentException: addKeystroke(null)
    | NullCharacterSet     // IllegalArgumentException from the factory constructor
    | EmptyCharacterSet    // IllegalArgumentException from the factory constructor
    | InvalidCharacter     // IllegalArgumentException from createKeystroke
    | KeyNotAllowed        // KeystrokeException from the recorder's keyDown
    | NullFactory          // IllegalArgumentException from the recorder constructor
    | NullPhrase           // IllegalArgumentException from the phrase matcher
    | EmptyPhrase          // IllegalArgumentException from the phrase matcher
    | NullRecorder         // director used before a recorder was set
    | EmptyBasis           // IOException: restored template holds no sample
    | MissingPosition      // IndexOutOfBoundsException: a sample shorter than the passphrase
    | MissingStatistics    // the statistics dataset has no column for a position
    | MissingOutlierSet    // NullPointerException: no outlier set for a position

  /** The errors the source raises as `KeystrokeException`. */
  predicate IsKeystrokeException(e: Error) {
    e.LinkAlreadySet? || e.LinkOutOfOrder? || e.AlreadyReleased? ||
    e.ReleaseBeforeStart? || e.KeyNotAllowed?
  }
}
