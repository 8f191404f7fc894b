/**
 * The temperature probe (`gettemperature`): the hardware monitor reports
 * millidegrees Celsius and the probe shows whole degrees, truncated toward
 * zero by C's `long` division. The critical threshold is read but not shown.
 */
module Temperature {
  import opened Wrappers
  import opened CInts

  /** `gettemperature`: whole degrees, or nothing when either file cannot be read. */
  function GetTemperature(input: Option<int>, crit: Option<int>): (r: Option<int>)
    ensures r.Some? <==> input.Some? && crit.Some?
    ensures r.Some? ==> Abs(r.value) * 1000 <= Abs(input.value) < (Abs(r.value) + 1) * 1000
    ensures r.Some? ==> (0 <= input.value ==> 0 <= r.value) && (input.value <= 0 ==> r.value <= 0)
  {
    if input.None? || crit.None? then None
    else
      var t := input.value;
      CDivMod(t, 1000);
      var q := CDiv(t, 1000);
      assert Abs(q) * 1000 == Abs(q * 1000);
      Some(q)
  }
}
