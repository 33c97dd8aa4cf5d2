/** The timestamp helpers of `src/utils/time_utils.py`: a magnitude-band
    classifier for millisecond timestamps and a strict "is in the past" test.
    The wall clock is the parameter `now` (milliseconds since the epoch). */
module TimeUtils {
  import opened PyText

  /** What the classifier can be handed: a Python `int`, or anything else. */
  datatype Scalar = Int(value: int) | NotInt

  const SecondsMessage := "Timestamp likely in seconds format."
  const ValidMessage := "Timestamp is a valid Unix millisecond timestamp."
  const FutureMessage := "Timestamp exceeds reasonable future date range."
  const NotPositiveMessage := "Timestamp is not a positive integer."

  /** Below this a positive value is taken to be in seconds (1e9). */
  const SecondsBound: int := 1_000_000_000
  /** From this on a value is beyond any reasonable date (2e12). */
  const FutureBound: int := 2_000_000_000_000

  /** `_is_unix_millisecond_timestamp`: accepts exactly the integers of
      [1e9, 2e12); each rejected band has its own message. */
  function IsUnixMillisecondTimestamp(t: Scalar): (r: (bool, string))
    ensures r.0 <==> t.Int? && SecondsBound <= t.value < FutureBound
    ensures r.0 ==> r.1 == ValidMessage
    ensures (t.NotInt? || t.value <= 0) ==> r == (false, NotPositiveMessage)
    ensures t.Int? && 0 < t.value < SecondsBound ==> r == (false, SecondsMessage)
    ensures t.Int? && t.value >= FutureBound ==> r == (false, FutureMessage)
  {
    if t.Int? && t.value > 0 then
      if t.value < SecondsBound then (false, SecondsMessage)
      else if t.value < FutureBound then (true, ValidMessage)
      else (false, FutureMessage)
    else (false, NotPositiveMessage)
  }

  /** The four outcomes are told apart by their messages alone: the message
      names the band the value fell in. */
  lemma BandsDisjoint(s: Scalar, t: Scalar)
    requires IsUnixMillisecondTimestamp(s).1 == IsUnixMillisecondTimestamp(t).1
    ensures IsUnixMillisecondTimestamp(s).0 == IsUnixMillisecondTimestamp(t).0
    ensures s.Int? && s.value > 0 && t.Int? && t.value > 0 ==>
              (s.value < SecondsBound <==> t.value < SecondsBound)
              && (s.value >= FutureBound <==> t.value >= FutureBound)
  {
  }

  /** The marker the row validators look for to tag seconds-unit mistakes. */
  const SecondsUnitMarker := "appears to be in seconds instead of milliseconds"

  /** No rejection message of this classifier carries the seconds-unit
      marker, so with it the validators never tag a timestamp error. */
  lemma RejectionsNeverCarrySecondsMarker(t: Scalar)
    requires !IsUnixMillisecondTimestamp(t).0
    ensures !Contains(IsUnixMillisecondTimestamp(t).1, SecondsUnitMarker)
  {
    ContainsNeedsRoom(IsUnixMillisecondTimestamp(t).1, SecondsUnitMarker);
  }

  /** `_is_past_timestamp`: strictly before the current time. */
  function IsPastTimestamp(millis: int, now: int): (past: bool)
    ensures past ==> millis != now
    ensures past <==> millis < now
  {
    millis < now
  }
}
