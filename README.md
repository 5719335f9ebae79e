# BiometricPassword keystroke-dynamics core, in Dafny

BiometricPassword authenticates a user by the rhythm of typing a passphrase
as well as by the text itself. The model covers its capture and matching
core:

- **Capture.** A `KeystrokeDirector` receives key presses and releases. It
  forwards them, lower-cased, to a `KeystrokeRecorderImpl`, keeps a
  completion flag, and notifies registered observers (UPDATE, CORRUPTION,
  COMPLETION, FILTER, REFRESH).
- **Recording.** The recorder tracks which keys are held. It asks a
  `LowerCaseKeystrokeFactory` for one `Keystroke` record per press, and
  appends each record to the live `KeystrokeSequence`. That sequence is a
  chain of records linked to their neighbours, plus the text typed so far.
- **Keystroke records.** Each record has a write-once release time and
  write-once `prior`/`next` links. From these it derives its *dwell* time
  (how long the key was held) and its *flight* time (the gap since the
  previous key was released).
- **Matching.** An `ExactPhraseMatcher` gates on the text. A
  `StatisticalMatcher` keeps an enrollment basis of captured sequences. From
  the basis it computes per-position regular ranges of dwell and flight. A
  candidate is scored `1 - outliers / (2 * samplePoints)`. The basis can be
  filtered of sequences that contain reported outliers.
- **Validation.** `FieldValidator` checks usernames and passwords against
  the default character set `0-9a-z`, ignoring case.

Java exceptions become `Result`/`Outcome` values that carry an `Error`
(`failures.dfy`). `IsKeystrokeException` marks the errors the source raises
as `KeystrokeException`, which are the only ones the director catches. Java
`null` becomes `Option` or a nullable class type.

Classes with fields updated in place are Dafny classes with `modifies`
frames: `Keystroke`, `KeystrokeSequence`, the factory, the recorder, the
director and the statistical matcher. Their behaviour is specified by
ghost functions of the old state, such as `KeyDownOutcome`, `LinkOutcome`
and `CurrentStats`. The pure parts are datatypes and functions: the phrase
gate, the field validator, and the outlier count, score and filter in
`outlier_statistics.dfy`.

Key events arrive as a character and a time. Observers are numbers. The
director records each call it makes as an `(observer, type)` pair in
`delivered`, and each notification type it raises in the ghost trace
`emitted`.

All source paths below are under `src/main/java/net/ladieu/biometrics/keystroke/`.

## Model

| member | source | states |
|---|---|---|
| Characters.ToLower | src/main/java/net/ladieu/biometrics/keystroke/model/LowerCaseKeystrokeFactory.java:37 | The folded character is never an upper-case letter. Non-letters and lower-case letters are unchanged. `A`-`Z` map onto `a`-`z` by the fixed ASCII offset. |
| Characters.ToLowerIdempotent | src/main/java/net/ladieu/biometrics/keystroke/model/LowerCaseKeystrokeFactory.java:47-49 | Folding twice is folding once, and a letter and its upper-case form fold to the same character. |
| Characters.DefaultCharsetIsDigitsAndLowerCase | src/main/java/net/ladieu/biometrics/keystroke/model/KeystrokeCharacterSets.java:13-17 | The default set contains exactly the ASCII digits and lower-case letters (both directions). |
| Characters.DefaultCharsetIsFolded | src/main/java/net/ladieu/biometrics/keystroke/model/KeystrokeCharacterSets.java:13-17 | Every member of the default set is its own lower-case form. |
| Keystrokes.NewKeystroke | src/main/java/net/ladieu/biometrics/keystroke/model/Keystroke.java:23-33 | Fails exactly when the start time is negative. Otherwise it gives a fresh, unreleased, unlinked record holding the given value and start time. |
| Keystrokes.Keystroke.Init | src/main/java/net/ladieu/biometrics/keystroke/model/Keystroke.java:23-33 | Once the start time has been checked, the new record stores the value and start time, is unreleased with end time 0, has no links, and satisfies the record invariant. |
| Keystrokes.Keystroke.SetPrior | src/main/java/net/ladieu/biometrics/keystroke/model/Keystroke.java:35-55 | Succeeds exactly for a non-null prior, on a record without one, that does not start later. Each failure has its own error: null, already set, out of order. On failure the existing link is kept. |
| Keystrokes.Keystroke.SetNext | src/main/java/net/ladieu/biometrics/keystroke/model/Keystroke.java:61-80 | Succeeds exactly for a non-null next, on a record without one, that does not start earlier. Each failure has its own error. On failure the existing link is kept. |
| Keystrokes.Keystroke.IsReleased | src/main/java/net/ladieu/biometrics/keystroke/model/Keystroke.java:86-88 | An unreleased valid record reads end time 0. A released one ends no earlier than it started. |
| Keystrokes.Keystroke.Release | src/main/java/net/ladieu/biometrics/keystroke/model/Keystroke.java:90-104 | A second release fails and changes nothing. A release before the press fails and leaves the record unreleased. Otherwise the end time is set and the dwell becomes end minus start. |
| Keystrokes.Keystroke.DwellTime | src/main/java/net/ladieu/biometrics/keystroke/model/Keystroke.java:106-112 | 0 before release, and never negative for a valid record. The released value, end time minus start time, is stated by `Keystrokes.Keystroke.Release`. |
| Keystrokes.Keystroke.FlightTime | src/main/java/net/ladieu/biometrics/keystroke/model/Keystroke.java:114-121 | 0 without a prior, and 0 for a prior whose end time is 0 (the sentinel, which also covers a prior released at time 0), so also for an unreleased prior. Otherwise flight plus the prior's end time equals this record's start time. |
| Keystrokes.OverlappingPressesGiveNegativeFlight | src/main/java/net/ladieu/biometrics/keystroke/model/Keystroke.java:114-121 | A press made before the previous key was released gives a negative flight time, and it is not rejected. |
| Sequences.KeystrokeSequence.constructor | src/main/java/net/ladieu/biometrics/keystroke/model/KeystrokeSequence.java:14-18 | A new sequence has no records and empty text. |
| Sequences.KeystrokeSequence.GetCapturedValue | src/main/java/net/ladieu/biometrics/keystroke/model/KeystrokeSequence.java:20-22 | In a valid sequence the text is never shorter than the chain. How the text grows with each key is stated by `Sequences.KeystrokeSequence.AddKeystroke`. |
| Sequences.KeystrokeSequence.AddKeystroke | src/main/java/net/ladieu/biometrics/keystroke/model/KeystrokeSequence.java:24-35 | Null is rejected and changes nothing, the last record's links included. Otherwise the text grows by the record's character before linking is attempted. The chain grows by the record exactly when linking succeeds, and both links are then set. A failed link leaves the chain as it was and the text one character longer. |
| Sequences.KeystrokeSequence.LinkToPriorKeystroke | src/main/java/net/ladieu/biometrics/keystroke/model/KeystrokeSequence.java:37-44 | Returns the outcome of `setPrior` then `setNext` against the last record. It does nothing on an empty chain. It keeps the chain invariant for the chain extended by the record. |
| Sequences.KeystrokeSequence.CreateCopy | src/main/java/net/ladieu/biometrics/keystroke/model/KeystrokeSequence.java:63-68 | A fresh container with the same records and the same text. |
| Sequences.KeystrokeSequence.GetMostRecentKeystroke | src/main/java/net/ladieu/biometrics/keystroke/model/KeystrokeSequence.java:70-77 | Null exactly when the chain is empty. Otherwise it is the last record. |
| Sequences.KeystrokeSequence.GetKeystroke | src/main/java/net/ladieu/biometrics/keystroke/model/KeystrokeSequence.java:79-81 | The record at a 0-based index. An index out of range is an error. |
| Sequences.KeystrokeSequence.GetFirstKeystroke | src/main/java/net/ladieu/biometrics/keystroke/model/KeystrokeSequence.java:83-89 | Null exactly when the chain is empty. Otherwise it is the first record. |
| Sequences.StartTimesOrdered | src/main/java/net/ladieu/biometrics/keystroke/model/KeystrokeSequence.java:37-44 | In a valid chain, start times never decrease along the chain. |
| Sequences.FlightMeasuredAgainstPredecessor | src/main/java/net/ladieu/biometrics/keystroke/model/Keystroke.java:114-121 | In a valid chain, each record's flight is measured against the record before it. |
| Sequences.CopyIsIndependent | src/main/java/net/ladieu/biometrics/keystroke/model/KeystrokeSequence.java:63-68 | Appending to the original after copying changes neither the copy's chain nor its text. |
| Factories.LowerImage | src/main/java/net/ladieu/biometrics/keystroke/model/LowerCaseKeystrokeFactory.java:25-30 | Every given character's lower-case form is in the image, and the image holds no upper-case letter. |
| Factories.LowerImageMembers | src/main/java/net/ladieu/biometrics/keystroke/model/LowerCaseKeystrokeFactory.java:25-30 | A character's lower-case form is in the image exactly when some given character has the same lower-case form. |
| Factories.DefaultCharsetImage | src/main/java/net/ladieu/biometrics/keystroke/model/LowerCaseKeystrokeFactory.java:10-12 | The image of the default set is the default set itself. |
| Factories.LowerCaseKeystrokeFactory.FromCharacters | src/main/java/net/ladieu/biometrics/keystroke/model/LowerCaseKeystrokeFactory.java:25-30 | The loop fills the accepted set with exactly the lower-case image of the given set, so `'C'` and `'c'` consolidate. |
| Factories.LowerCaseKeystrokeFactory.Create | src/main/java/net/ladieu/biometrics/keystroke/model/LowerCaseKeystrokeFactory.java:14-30 | A null set and an empty set are rejected with their own errors. Otherwise the factory accepts the lower-case image. |
| Factories.LowerCaseKeystrokeFactory.CreateDefault | src/main/java/net/ladieu/biometrics/keystroke/model/LowerCaseKeystrokeFactory.java:10-12 | The default factory accepts exactly the digits and the lower-case letters. |
| Factories.LowerCaseKeystrokeFactory.CreateKeystroke | src/main/java/net/ladieu/biometrics/keystroke/model/LowerCaseKeystrokeFactory.java:35-45 | An unaccepted character fails. An accepted one with a negative time fails through the record constructor. Otherwise it gives a fresh unreleased record holding the lower-case form and the time. |
| Factories.LowerCaseKeystrokeFactory.AcceptsCharacter | src/main/java/net/ladieu/biometrics/keystroke/model/LowerCaseKeystrokeFactory.java:47-49 | A character is accepted exactly when its lower-case form is in the configured set, and upper-casing it first gives the same answer. |
| Factories.AcceptsCaseInsensitive | src/main/java/net/ladieu/biometrics/keystroke/model/LowerCaseKeystrokeFactory.java:47-49 | Acceptance holds exactly when some configured character folds to the same form. It is unchanged by upper- or lower-casing the character. |
| Recorders.KeystrokeRecorder.WithFactory | src/main/java/net/ladieu/biometrics/keystroke/model/KeystrokeRecorderImpl.java:15-23 | A new recorder holds no keys and has a fresh empty sequence. |
| Recorders.KeystrokeRecorder.Create | src/main/java/net/ladieu/biometrics/keystroke/model/KeystrokeRecorderImpl.java:15-23 | A null factory is rejected. Otherwise the recorder is valid, holds no keys and has an empty sequence. |
| Recorders.KeystrokeRecorder.KeyDown | src/main/java/net/ladieu/biometrics/keystroke/model/KeystrokeRecorderImpl.java:29-43 | A held key returns false and changes nothing. An unaccepted key or a negative time fails and changes nothing. Otherwise a fresh record for the lower-cased key becomes held and the text grows by that character; the record joins the chain unless linking fails. Unless the record joins the chain, the last record's link to a successor is kept. When linking fails because that link is taken, the new record still points back to the last record; when it fails on order, the new record has no prior. The raw key is what is looked up. |
| Recorders.KeystrokeRecorder.HoldAndAppend | src/main/java/net/ladieu/biometrics/keystroke/model/KeystrokeRecorderImpl.java:37-39 | The new record is held under its value before it is appended, so it stays held even when linking fails. The text grows by its character. The chain grows by it exactly when linking reports success, and the error otherwise is linking's own. On failure the last record's successor link is kept, and the new record points back to the last record exactly when the order check passed. |
| Recorders.KeystrokeRecorder.KeyUp | src/main/java/net/ladieu/biometrics/keystroke/model/KeystrokeRecorderImpl.java:45-56 | A key that is not held returns false and changes nothing. A held key stops being held and returns true, and its record is released at that time. A release before the press fails after the key is removed. |
| Recorders.KeystrokeRecorder.GetResult | src/main/java/net/ladieu/biometrics/keystroke/model/KeystrokeRecorderImpl.java:25-27 | A fresh valid copy of the live sequence: the same records and the same text. |
| Recorders.KeystrokeRecorder.GetActiveKeys | src/main/java/net/ladieu/biometrics/keystroke/model/KeystrokeRecorderImpl.java:59-61 | Exactly the set of held keys; in a valid recorder each is backed by an unreleased, valid record whose value is that key. |
| Recorders.KeystrokeRecorder.Reset | src/main/java/net/ladieu/biometrics/keystroke/model/KeystrokeRecorderImpl.java:63-65 | The sequence is replaced by a fresh empty one. The held keys are left as they were. |
| Recorders.Tap | src/main/java/net/ladieu/biometrics/keystroke/model/KeystrokeRecorderImpl.java:29-56 | Pressing and releasing a key that is not held extends the text and the chain by one fresh record with those times. The held keys end as they were. |
| Recorders.RepeatedPressIsIgnored | src/main/java/net/ladieu/biometrics/keystroke/model/KeystrokeRecorderImpl.java:29-43 | Pressing a held key again reports false, and a later press of another accepted key still reports true; the text is `"ab"`. |
| Recorders.TypeTheSameKeyThreeTimes | src/main/java/net/ladieu/biometrics/keystroke/model/KeystrokeRecorderImpl.java:25-61 | Tapping `a` three times captures `"aaa"` and leaves no key held. |
| Directors.Registered | src/main/java/net/ladieu/biometrics/keystroke/controller/KeystrokeDirector.java:38-40 | Adding keeps registration order without duplicates. An observer already present leaves the list unchanged; a new one is appended at the end. |
| Directors.Unregistered | src/main/java/net/ladieu/biometrics/keystroke/controller/KeystrokeDirector.java:42-44 | The removed observer is no longer present, every other observer stays, and the list never grows. |
| Directors.UnregisteredOfAbsent | src/main/java/net/ladieu/biometrics/keystroke/controller/KeystrokeDirector.java:42-44 | Removing an observer that is not registered changes nothing. |
| Directors.UnregisterRemovesOnlyThatEntry | src/main/java/net/ladieu/biometrics/keystroke/controller/KeystrokeDirector.java:42-44 | Removing a registered observer leaves the others in their order, as the list with that one entry cut out. |
| Directors.UnregisteredKeepsNoDuplicates | src/main/java/net/ladieu/biometrics/keystroke/controller/KeystrokeDirector.java:42-44 | Removal keeps the list free of duplicates. |
| Directors.Broadcast | src/main/java/net/ladieu/biometrics/keystroke/controller/KeystrokeDirector.java:89-96 | One delivery per registered observer, in registration order: the `i`-th delivery goes to the `i`-th observer and carries the notification. |
| Directors.BroadcastReachesEachOnce | src/main/java/net/ladieu/biometrics/keystroke/controller/KeystrokeDirector.java:89-96 | A notification reaches the observers in registration order, each one exactly once, and reaches an observer exactly when it is registered. |
| Directors.KeystrokeDirector.constructor | src/main/java/net/ladieu/biometrics/keystroke/controller/KeystrokeDirector.java:23-25 | The default director completes on `'\n'`, is not completed, and has no observers. |
| Directors.KeystrokeDirector.WithCompletionChar | src/main/java/net/ladieu/biometrics/keystroke/controller/KeystrokeDirector.java:27-32 | A director completing on the given character, not completed, with no observers. |
| Directors.KeystrokeDirector.SetRecorder | src/main/java/net/ladieu/biometrics/keystroke/controller/KeystrokeDirector.java:34-36 | Installs the recorder (possibly null). |
| Directors.KeystrokeDirector.AddObserver | src/main/java/net/ladieu/biometrics/keystroke/controller/KeystrokeDirector.java:38-40 | The observers become the old list with the observer registered, so duplicate adds are ignored. |
| Directors.KeystrokeDirector.RemoveObserver | src/main/java/net/ladieu/biometrics/keystroke/controller/KeystrokeDirector.java:42-44 | The observers become the old list with the observer unregistered. |
| Directors.KeystrokeDirector.NotifyObservers | src/main/java/net/ladieu/biometrics/keystroke/controller/KeystrokeDirector.java:89-96 | With a recorder, the calls made are exactly the broadcast of the type to the current observers, in order, and the type is emitted once. Without a recorder the notification cannot be built and nothing is delivered. |
| Directors.KeystrokeDirector.KeyPressed | src/main/java/net/ladieu/biometrics/keystroke/controller/KeystrokeDirector.java:46-61 | The completion character sets the flag and leaves the recorder untouched. Any other character is pressed lower-cased on the recorder, with exactly the recorder's effect. A `KeystrokeException` becomes exactly one CORRUPTION broadcast. Any other error propagates. Success notifies nobody, so a press never emits UPDATE. |
| Directors.KeystrokeDirector.KeyReleased | src/main/java/net/ladieu/biometrics/keystroke/controller/KeystrokeDirector.java:63-75 | The lower-cased character is released on the recorder, the completion character included. UPDATE is emitted exactly when the release returned true. COMPLETION then follows exactly when the flag is set and no key is held. A release error propagates before any notification. |
| Directors.KeystrokeDirector.FilterOutliers | src/main/java/net/ladieu/biometrics/keystroke/controller/KeystrokeDirector.java:81-83 | Emits FILTER to every observer and nothing else. |
| Directors.KeystrokeDirector.RefreshViews | src/main/java/net/ladieu/biometrics/keystroke/controller/KeystrokeDirector.java:85-87 | Emits REFRESH to every observer and nothing else. |
| Directors.KeystrokeDirector.IsInputCompleted | src/main/java/net/ladieu/biometrics/keystroke/controller/KeystrokeDirector.java:98-100 | Reports the completion flag, which `KeyPressed` sets on the completion character and `Reset` clears. |
| Directors.KeystrokeDirector.FlagCompletion | src/main/java/net/ladieu/biometrics/keystroke/controller/KeystrokeDirector.java:102-104 | The completion flag is set. |
| Directors.KeystrokeDirector.Reset | src/main/java/net/ladieu/biometrics/keystroke/controller/KeystrokeDirector.java:106-109 | Clears the flag, then resets the recorder: a fresh empty sequence, with the held keys kept. A missing recorder is an error after the flag is cleared. |
| Directors.WiredDirector | src/main/java/net/ladieu/biometrics/keystroke/controller/KeystrokeDirector.java:23-40 | A default director with a recorder installed and one observer added completes on `'\n'`, is not completed, and has delivered nothing. |
| Directors.PressedOneKey | src/main/java/net/ladieu/biometrics/keystroke/controller/KeystrokeDirector.java:46-61 | Pressing `a` holds exactly `a` from time 10 and delivers nothing to the observer. |
| Directors.TypedOneKey | src/main/java/net/ladieu/biometrics/keystroke/controller/KeystrokeDirector.java:63-70 | Typing `a` with one observer delivers exactly one UPDATE, and no key is held afterwards. |
| Directors.CompletedSession | src/main/java/net/ladieu/biometrics/keystroke/controller/KeystrokeDirector.java:50-51 | Pressing the completion character afterwards sets the flag and delivers nothing. |
| Directors.CompletionRepeatsUntilReset | src/main/java/net/ladieu/biometrics/keystroke/controller/KeystrokeDirector.java:72-74 | Once completed, each later release with no key held delivers COMPLETION again, even a release of a key that was not held. |
| PhraseMatchers.ExactPhraseMatcher.DistanceTo | src/main/java/net/ladieu/biometrics/keystroke/model/ExactPhraseMatcher.java:18-21 | EXACT_MATCH exactly when the text is the phrase, and NO_MATCH exactly when it is not. |
| PhraseMatchers.ExactPhraseMatcher.GetTextToMatch | src/main/java/net/ladieu/biometrics/keystroke/model/ExactPhraseMatcher.java:23-25 | Returns the phrase the matcher was built with; `PhraseMatchers.NewExactPhraseMatcher` ties it to the constructor argument. |
| PhraseMatchers.ExactPhraseMatcher.GetDistance | src/main/java/net/ladieu/biometrics/keystroke/model/ExactPhraseMatcher.java:18-21 | Judged on the sequence's text alone. The result is always one of the two constants. |
| PhraseMatchers.NewExactPhraseMatcher | src/main/java/net/ladieu/biometrics/keystroke/model/ExactPhraseMatcher.java:7-16 | Null and empty phrases are rejected with their own errors, and every other phrase is accepted. The phrase is returned unchanged by `GetTextToMatch`. |
| PhraseMatchers.PrefixOrExtensionIsNoMatch | src/main/java/net/ladieu/biometrics/keystroke/model/ExactPhraseMatcher.java:19 | A proper prefix or a proper extension of the phrase is NO_MATCH. |
| PhraseMatchers.EmptyTextNeverMatches | src/main/java/net/ladieu/biometrics/keystroke/model/ExactPhraseMatcher.java:7-21 | A matcher that was constructed successfully never matches the empty text. |
| FieldValidators.IsValid | src/main/java/net/ladieu/biometrics/keystroke/view/FieldValidator.java:7-20 | The early-return scan answers exactly: present, long enough, and every character folds into the default set. |
| FieldValidators.ValidFieldIsAlphanumeric | src/main/java/net/ladieu/biometrics/keystroke/view/FieldValidator.java:9-17 | Valid exactly when long enough and made only of ASCII digits and letters of either case. |
| FieldValidators.ValidityIgnoresCase | src/main/java/net/ladieu/biometrics/keystroke/view/FieldValidator.java:11-12 | Two texts that differ only in letter case are both valid or both invalid. |
| FieldValidators.EdgeCases | src/main/java/net/ladieu/biometrics/keystroke/view/FieldValidator.java:9-18 | A missing field is invalid, and a field shorter than the minimum is invalid. The empty text is valid exactly when the minimum is at most 0. |
| OutlierStatistics.PositionOutliers | src/main/java/net/ladieu/biometrics/keystroke/model/StatisticalMatcher.java:138-144 | One keystroke adds at most 2. It adds 0 exactly when both measurements are within range, and 2 exactly when both are outside. |
| OutlierStatistics.OutlierCount | src/main/java/net/ladieu/biometrics/keystroke/model/StatisticalMatcher.java:112-150 | Defined exactly when the table has both ranges for every position. A missing position is an error. The count is between 0 and twice the length. |
| OutlierStatistics.OutlierCountIsPositionCount | src/main/java/net/ladieu/biometrics/keystroke/model/StatisticalMatcher.java:112-150 | The count equals the number of positions whose dwell is out of range plus the number whose flight is out of range. |
| OutlierStatistics.NoOutliersIffAllRegular | src/main/java/net/ladieu/biometrics/keystroke/model/StatisticalMatcher.java:138-144 | The count is 0 exactly when every position's dwell and flight lie within their ranges. |
| OutlierStatistics.StatisticalDistance | src/main/java/net/ladieu/biometrics/keystroke/model/StatisticalMatcher.java:105-110 | The score never exceeds 1, and it is 1 (EXACT_MATCH) exactly when there are no outliers. |
| OutlierStatistics.DistanceInUnitInterval | src/main/java/net/ladieu/biometrics/keystroke/model/StatisticalMatcher.java:105-110 | With at most two outliers per sample point the score lies in [0, 1]. |
| OutlierStatistics.MoreOutliersLowerDistance | src/main/java/net/ladieu/biometrics/keystroke/model/StatisticalMatcher.java:105-110 | Each additional outlier strictly lowers the score. |
| OutlierStatistics.ContainsOutlierFrom | src/main/java/net/ladieu/biometrics/keystroke/model/StatisticalMatcher.java:200-219 | The scan fails only through an outlier set that is consulted but missing. |
| OutlierStatistics.ContainsOutlier | src/main/java/net/ladieu/biometrics/keystroke/model/StatisticalMatcher.java:200-219 | The scan of a whole sequence, from position 0, fails only through a missing outlier set. |
| OutlierStatistics.ContainsOutlierFromIsExists | src/main/java/net/ladieu/biometrics/keystroke/model/StatisticalMatcher.java:200-219 | When both maps cover every position, the stop-at-first scan reports exactly whether some later position's flight or dwell is a reported outlier. |
| OutlierStatistics.ContainsOutlierIsExists | src/main/java/net/ladieu/biometrics/keystroke/model/StatisticalMatcher.java:200-219 | The same for the whole sequence. |
| OutlierStatistics.CountFlagged | src/main/java/net/ladieu/biometrics/keystroke/model/StatisticalMatcher.java:226-227 | The number dropped never exceeds the number of entries. |
| OutlierStatistics.UnflaggedLength | src/main/java/net/ladieu/biometrics/keystroke/model/StatisticalMatcher.java:196-224 | The kept entries number exactly the entries minus the flagged ones. |
| OutlierStatistics.UnflaggedAppend | src/main/java/net/ladieu/biometrics/keystroke/model/StatisticalMatcher.java:196-224 | Filtering distributes over concatenation, so the kept entries keep their relative order. |
| OutlierStatistics.UnflaggedMembers | src/main/java/net/ladieu/biometrics/keystroke/model/StatisticalMatcher.java:196-224 | An entry is kept exactly when one of its occurrences is unflagged. |
| OutlierStatistics.UnflaggedExtremes | src/main/java/net/ladieu/biometrics/keystroke/model/StatisticalMatcher.java:196-224 | With nothing flagged every entry is kept. With everything flagged nothing is kept. |
| OutlierStatistics.Column | src/main/java/net/ladieu/biometrics/keystroke/model/StatisticalMatcher.java:171-180 | One measurement per basis entry, in basis order: entry `j` gives the chosen channel of its record at position `i`. |
| OutlierStatistics.Analysis | src/main/java/net/ladieu/biometrics/keystroke/model/StatisticalMatcher.java:166-183 | Succeeds exactly when every basis entry has every position, giving one range per sample point. A short entry is an error. |
| OutlierStatistics.AnalysisAt | src/main/java/net/ladieu/biometrics/keystroke/model/StatisticalMatcher.java:166-183 | The range at each position is the calculator applied to that position's column across the basis. |
| OutlierStatistics.Recalculated | src/main/java/net/ladieu/biometrics/keystroke/model/StatisticalMatcher.java:86-95 | An empty basis gives empty ranges. Otherwise both channels get one range per sample point exactly when every entry is long enough. |
| OutlierStatistics.EmptyBasisScoresNothing | src/main/java/net/ladieu/biometrics/keystroke/model/StatisticalMatcher.java:128-136 | Against the empty statistics of an empty basis, any non-empty candidate hits a missing position. |
| StatisticalMatchers.TimingsOf | src/main/java/net/ladieu/biometrics/keystroke/model/StatisticalMatcher.java:123-126 | One (dwell, flight) pair per record, in chain order, read from that record. |
| StatisticalMatchers.Snapshot | src/main/java/net/ladieu/biometrics/keystroke/model/StatisticalMatcher.java:81-84 | The loop records the sequence's text and exactly its records' measurements. |
| StatisticalMatchers.Score | src/main/java/net/ladieu/biometrics/keystroke/model/StatisticalMatcher.java:105-110 | A statistics error propagates. Against a table, a score exists exactly when the table covers the candidate, and it is EXACT_MATCH exactly when there are no outliers. |
| StatisticalMatchers.OutlierFlags | src/main/java/net/ladieu/biometrics/keystroke/model/StatisticalMatcher.java:198-224 | Succeeds exactly when every entry's scan succeeds, and then gives each entry's scan result. |
| StatisticalMatchers.SequenceContainsOutlier | src/main/java/net/ladieu/biometrics/keystroke/model/StatisticalMatcher.java:200-219 | The early-exit loop returns exactly the scan's result. |
| StatisticalMatchers.ColumnSample | src/main/java/net/ladieu/biometrics/keystroke/model/StatisticalMatcher.java:172-177 | The loop returns the column exactly when every entry has the position. Otherwise it is an error. |
| StatisticalMatchers.CountOutliers | src/main/java/net/ladieu/biometrics/keystroke/model/StatisticalMatcher.java:122-147 | The loop from position 1 returns exactly the outlier count of the records' measurements. |
| StatisticalMatchers.AnalyzeBasis | src/main/java/net/ladieu/biometrics/keystroke/model/StatisticalMatcher.java:166-183 | The nested loops return exactly the analysis of the basis. |
| StatisticalMatchers.KeepOutlierFree | src/main/java/net/ladieu/biometrics/keystroke/model/StatisticalMatcher.java:196-224 | The loop keeps, in order, exactly the unflagged entries. It fails when any scan fails. |
| StatisticalMatchers.FilterKeepsExactlyTheOutlierFree | src/main/java/net/ladieu/biometrics/keystroke/model/StatisticalMatcher.java:198-224 | When every entry's positions have outlier sets, filtering succeeds. An entry is then kept exactly when it is in the basis and has no position whose flight or dwell is a reported outlier. |
| StatisticalMatchers.StatisticalMatcher.Enroll | src/main/java/net/ladieu/biometrics/keystroke/model/StatisticalMatcher.java:75-79 | The phrase is the text to match. The sample points equal its length. The basis is empty and the statistics are stale. |
| StatisticalMatchers.StatisticalMatcher.Create | src/main/java/net/ladieu/biometrics/keystroke/model/StatisticalMatcher.java:46-49 | The gate's error for a null or empty password is the constructor's error. Otherwise it gives a fresh, valid matcher for that password with an empty basis. |
| StatisticalMatchers.StatisticalMatcher.Restore | src/main/java/net/ladieu/biometrics/keystroke/model/StatisticalMatcher.java:60-73 | An empty stored basis is an error. Otherwise the passphrase is the first stored sequence's text, which the gate rejects if it is empty. The basis is the stored one. |
| StatisticalMatchers.StatisticalMatcher.AddSequence | src/main/java/net/ladieu/biometrics/keystroke/model/StatisticalMatcher.java:81-84 | Appends the sequence's snapshot at the end, marks the statistics stale, and the captured count grows by one. |
| StatisticalMatchers.StatisticalMatcher.GetTextToMatch | src/main/java/net/ladieu/biometrics/keystroke/model/StatisticalMatcher.java:189-191 | The gate's phrase: never empty, and its length is the number of sample points. |
| StatisticalMatchers.StatisticalMatcher.AnalyzeData | src/main/java/net/ladieu/biometrics/keystroke/model/StatisticalMatcher.java:166-183 | The analysis of the current basis for one channel. |
| StatisticalMatchers.StatisticalMatcher.RecalculateStats | src/main/java/net/ladieu/biometrics/keystroke/model/StatisticalMatcher.java:86-95 | On success the stored ranges become the recalculated ones and the flag is cleared; an empty basis gives empty ranges. A basis sequence too short leaves the ranges cleared and the flag unchanged. |
| StatisticalMatchers.StatisticalMatcher.GetDwellTimeStatistics | src/main/java/net/ladieu/biometrics/keystroke/model/StatisticalMatcher.java:159-164 | The dwell ranges of the current statistics, recomputed first when stale. |
| StatisticalMatchers.StatisticalMatcher.GetFlightTimeStatistics | src/main/java/net/ladieu/biometrics/keystroke/model/StatisticalMatcher.java:152-157 | The flight ranges of the current statistics, recomputed first when stale. |
| StatisticalMatchers.StatisticalMatcher.GenerateStats | src/main/java/net/ladieu/biometrics/keystroke/stats/StatisticalDatasetBuilder.java:19-45 | The table read through both getters is the current statistics, and its dwell and flight lists have the same length. |
| StatisticalMatchers.StatisticalMatcher.NumberOfOutliers | src/main/java/net/ladieu/biometrics/keystroke/model/StatisticalMatcher.java:112-150 | The outlier count of the candidate's records against the current statistics, after refreshing them. |
| StatisticalMatchers.StatisticalMatcher.GetStatisticalDistance | src/main/java/net/ladieu/biometrics/keystroke/model/StatisticalMatcher.java:105-110 | The score of the candidate against the current statistics, which always lies in [0, 1]. |
| StatisticalMatchers.StatisticalMatcher.GetDistance | src/main/java/net/ladieu/biometrics/keystroke/model/StatisticalMatcher.java:97-103 | NO_MATCH, with nothing recomputed, whenever the text is not the passphrase, whatever the timings. Otherwise it is the timing score. Always in [0, 1]. |
| StatisticalMatchers.StatisticalMatcher.GetNumberOfTemplatesCaptured | src/main/java/net/ladieu/biometrics/keystroke/model/StatisticalMatcher.java:234-236 | The number of samples in the basis now. `AddSequence` raises it by one and `FilterOutliers` lowers it by the number dropped. |
| StatisticalMatchers.StatisticalMatcher.GetNumberOfFilteredTemplates | src/main/java/net/ladieu/biometrics/keystroke/model/StatisticalMatcher.java:238-240 | The running count of samples dropped by filtering. `Enroll` starts it at 0 and `FilterOutliers` raises it by the number flagged. |
| StatisticalMatchers.StatisticalMatcher.FilterOutliers | src/main/java/net/ladieu/biometrics/keystroke/model/StatisticalMatcher.java:193-232 | The basis becomes its unflagged entries in their original order. The filtered count grows by exactly the number dropped, and the statistics become stale. A missing outlier set raises and changes nothing. |

## Left out

- Storage: `save`, `SerializingTemplateStorage` and `TemplateStorage` are file I/O and Java serialisation. `StatisticalMatchers.StatisticalMatcher.Restore` takes the stored basis as a parameter. The storage's own failure, an `IOException` when no template exists, is not modelled.
- StatisticalMatchers.StatisticalMatcher.AddSequence: the basis holds a snapshot of each sequence (its text and its records' dwell and flight times) taken when it is added. The source keeps a reference to the live records, so a release that happens after `addSequence` would change that basis entry. The model does not capture this aliasing.
- Box-and-whisker statistics: these come from JFreeChart (`BoxAndWhiskerCalculator`, `DefaultBoxAndWhiskerCategoryDataset`). The calculator is an opaque function from one position's measurements to an integer `RegularRange`. The dataset's double-valued quartiles, and the truncation of its regular bounds by `longValue()`, are not modelled.
- The dataset lookup of a position that is not in the table (a candidate longer than the statistics, or any candidate against an empty basis) throws in JFreeChart. It is modelled as the error `MissingStatistics`.
- `StatisticalDatasetBuilder.refreshStats` throws `IllegalStateException` when the two lists differ in length. That is not modelled as a separate path: `GenerateStats` proves the lengths are always equal.
- Float arithmetic: scores are `real`, without Java `float` rounding. The division by `2 * samplePoints` cannot be by zero, because the passphrase is never empty.
- Integer width: times and counts are unbounded integers, with no Java `long`/`int` overflow.
- Case folding: `Character.toLowerCase` is modelled for ASCII `A`-`Z` only.
- Outlier sets: membership compares integer values. Java's `Set<Number>.contains` on boxed values (a `Long` measurement against the chart's outlier values) is not modelled.
- The clock and AWT: `SystemTime` and `KeyEvent` become explicit `(character, time)` parameters. `keyTyped` does nothing in the source and is not modelled.
- The observers (the Swing views and the chart factory): what they do on a notification, and their `synchronized` handling, are outside the model. Observers are numbers, and a notification is its type. The recorder it carries is the director's own recorder.
- Null arguments other than those modelled (a null username, candidate sequence or observer, or a null key event) are not modelled. Nulls of the recorder, factory, character set, phrase, link and keystroke are modelled.
- `KeystrokeFactory` and `KeystrokeRecorder` are interfaces with one implementation each. The model uses the implementations directly.
- `toString`, `iterator()` (the copy it takes of the list is read directly), `serialVersionUID` and the views' Swing code (`CaptureTemplateView`, `VerifyAgainstTemplateView`, `EntryView`, `CapturePasswordView`, `DynamicChartFactoryImpl`) are not modelled.
