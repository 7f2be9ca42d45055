/**
 * The scheduler's priority type `priority_t` and its named sentinels.
 *
 * Their numerical values are defined by the scheduler's header, which is not
 * part of this model, so they are carried as a record of parameters. Lower
 * numbers mean more urgent work.
 */
module Priorities {

  datatype PriorityConstants = PriorityConstants(
    highest: int,        // PRIORITY_T_HIGHEST
    lowest: int,         // PRIORITY_T_LOWEST
    head: int,           // PRIORITY_T_HEAD: insert at the front unconditionally
    tail: int,           // PRIORITY_T_TAIL: insert at the back unconditionally
    defaultPriority: int, // PRIORITY_T_DEFAULT
    invalid: int         // PRIORITY_T_INVALID
  ) {
    /**
     * The relations the source relies on: the range is not empty, and the six
     * names are distinct (comdb2_priority_to_str switches over all six).
     */
    predicate Valid() {
      && highest <= lowest
      && highest != lowest && highest != head && highest != tail
      && highest != defaultPriority && highest != invalid && lowest != head
      && lowest != tail && lowest != defaultPriority && lowest != invalid
      && head != tail && head != defaultPriority && head != invalid
      && tail != defaultPriority && tail != invalid && defaultPriority != invalid
    }

    /** A priority inside the clamped range. */
    predicate InRange(p: int) {
      highest <= p <= lowest
    }
  }
}
