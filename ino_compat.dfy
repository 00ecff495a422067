/** The Arduino-style helpers of ino_compat.h: millis, map and constrain. */
module InoCompat {
  import opened CInt

  /** millis(): the microsecond clock divided by 1000, rounded down (uint64 division). */
  function Millis(micros: int): (ms: int)
    requires IsUInt64(micros)
    ensures IsUInt64(ms)
    ensures ms * 1000 <= micros < (ms + 1) * 1000
  {
    micros / 1000
  }

  /** map(): linear rescaling with C `long` arithmetic, whose division truncates toward zero. */
  function Map(x: int, inMin: int, inMax: int, outMin: int, outMax: int): (r: int)
    requires inMax != inMin
    ensures x == inMin ==> r == outMin
    ensures x == inMax ==> r == outMax
  {
    if x == inMin then
      assert (x - inMin) * (outMax - outMin) == 0 * (inMax - inMin);
      CDivExact(0, inMax - inMin);
      CDiv((x - inMin) * (outMax - outMin), inMax - inMin) + outMin
    else if x == inMax then
      assert (x - inMin) * (outMax - outMin) == (outMax - outMin) * (inMax - inMin);
      CDivExact(outMax - outMin, inMax - inMin);
      CDiv((x - inMin) * (outMax - outMin), inMax - inMin) + outMin
    else
      CDiv((x - inMin) * (outMax - outMin), inMax - inMin) + outMin
  }

  /** constrain(): clamp `val` first against `low`, then against `high`. */
  function Constrain(val: int, low: int, high: int): (r: int)
    ensures low <= val <= high ==> r == val
    ensures val > high ==> r == high
    ensures val < low && low <= high ==> r == low
    ensures low > high ==> r == high
    ensures low <= high ==> low <= r <= high
  {
    var v := if val < low then low else val;
    if v > high then high else v
  }

  /** Where Euclidean and truncating division differ, map follows C: a point
      halfway below the input range maps toward zero, not down. */
  lemma MapTruncatesTowardZero()
    ensures Map(-1, 0, 2, 0, 1) == 0
    ensures Map(-3, 0, 2, 0, 1) == -1
    ensures (-1 * 1) / 2 + 0 == -1
  {
    assert CDiv(-1, 2) == 0;
    assert CDiv(-3, 2) == -1;
  }
}
