/**
 * The "new" badge of a product row: a record is new when the time elapsed
 * since it was posted, in milliseconds, is at most seven days. The clock
 * reading is an explicit parameter, and the posted date arrives already
 * converted to milliseconds since the epoch, or as `None` when it could not
 * be parsed (an Invalid Date, whose time value is NaN).
 */
module RecencyClassifier {
  import opened Wrappers

  /** Seven days in milliseconds: 7 * 24 * 60 * 60 * 1000. */
  const WeekMillis: int := 7 * 24 * 60 * 60 * 1000

  /** The comparison on line 26: elapsed time at most a week. */
  predicate IsNewAt(posted: int, now: int) {
    now - posted <= WeekMillis
  }

  /**
   * `checkIfNew`: an unparseable date is never new, because every
   * comparison with NaN is false.
   */
  function CheckIfNew(posted: Option<int>, now: int): (r: bool)
    ensures posted.None? ==> !r
    ensures posted.Some? ==> (r <==> posted.value >= now - 604800000)
  {
    match posted
    case None => false
    case Some(p) => IsNewAt(p, now)
  }

  /** The window is inclusive: exactly seven days old is new, a millisecond more is not. */
  lemma BoundaryInclusive(now: int)
    ensures CheckIfNew(Some(now - WeekMillis), now)
    ensures !CheckIfNew(Some(now - WeekMillis - 1), now)
  {
  }

  /** A future-dated record has a negative elapsed time and so is new. */
  lemma FutureIsNew(posted: int, now: int)
    requires posted > now
    ensures CheckIfNew(Some(posted), now)
  {
  }

  /** A record new at some moment was new at every earlier moment. */
  lemma NewAtEarlierNow(posted: int, now: int, earlier: int)
    requires earlier <= now
    requires CheckIfNew(Some(posted), now)
    ensures CheckIfNew(Some(posted), earlier)
  {
  }

  /** A record posted later than a new one is new as well. */
  lemma NewForLaterPosted(posted: int, later: int, now: int)
    requires posted <= later
    requires CheckIfNew(Some(posted), now)
    ensures CheckIfNew(Some(later), now)
  {
  }

  /** One day old is new, eight days old is not. */
  lemma ExampleDays(now: int)
    ensures CheckIfNew(Some(now - 24 * 60 * 60 * 1000), now)
    ensures !CheckIfNew(Some(now - 8 * 24 * 60 * 60 * 1000), now)
    ensures CheckIfNew(Some(now + 24 * 60 * 60 * 1000), now)
  {
  }
}
