/**
 * The ways a reader call can fail. Each stands for the exception the reader lets escape;
 * the model returns it instead of throwing.
 */
module Failures {
  datatype Failure =
      /** `group(1)` after a `find()` that found no event block (an IllegalStateException). */
    | NoEventBlock
      /** `extractEvents` before an event block was extracted. */
    | BlockNotExtracted
      /** `extractMomenta` before the event entries were isolated. */
    | EntriesNotIsolated
      /** `lines[index]` on an entry that has only `length` lines. */
    | LineIndexOutOfBounds(index: nat, length: nat)
      /** "Invalid kinematical entry of particle <particle>". */
    | InvalidKinematicalEntry(particle: nat)
}
