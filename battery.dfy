/**
 * The battery probe (`getbattery`): a charge percentage, a glyph chosen by
 * the charging status and, while discharging, by a percentage tier, and an
 * estimate in hours and minutes of the time to full or to empty, printed as
 * `H:M` with the minutes unpadded. The four sysfs readings
 * (charge now, charge when full, status word, current draw) are inputs;
 * `None` stands for a file that could not be opened.
 */
module Battery {
  import opened Wrappers
  import opened CInts

  /** The symbol shown before the percentage. */
  datatype Glyph = Unknown | Full | Charging | Discharging(tier: nat)

  /** Hours and minutes of the estimate. */
  datatype Eta = Eta(hh: int, mm: int)

  /** What the probe shows: nothing, or glyph, percentage and perhaps an estimate. */
  datatype Reading = Blank | Shown(glyph: Glyph, pct: int, eta: Option<Eta>)

  /** Upper bounds of the discharge tiers 0 to 3, in percent; tier 4 has none. */
  const TierBounds: seq<int> := [20, 40, 60, 85]

  /** The discharge tier: the first bound the percentage is below, or the top tier. */
  function Tier(pct: int): (t: nat)
    ensures t <= |TierBounds|
    ensures forall k :: 0 <= k < t ==> TierBounds[k] <= pct
    ensures t < |TierBounds| ==> pct < TierBounds[t]
  {
    if pct < 20 then 0
    else if pct < 40 then 1
    else if pct < 60 then 2
    else if pct < 85 then 3
    else 4
  }

  /** `100*battnow/battfull` in C's truncating `long` division. */
  function Percent(now: int, full: int): int
    requires full != 0
  {
    CDiv(100 * now, full)
  }

  /** A charge between empty and full gives a percentage in [0, 100], truncated (not rounded). */
  lemma PercentBounds(now: int, full: int)
    requires 0 <= now <= full && 0 < full
    ensures 0 <= Percent(now, full) <= 100
    ensures Percent(now, full) * full <= 100 * now < (Percent(now, full) + 1) * full
  {
    CDivModNatural(100 * now, full);
    var p := (100 * now) / full;
    assert p * full <= 100 * now <= 100 * full;
    CancelFactor(p, 100, full);
  }

  /**
   * The charge the estimate is based on: still to gain while charging,
   * still to spend while discharging, and -1 (no estimate) otherwise.
   */
  function Energy(status: string, now: int, full: int): int
  {
    if status == "Charging" then full - now
    else if status == "Discharging" then now
    else -1
  }

  /**
   * `hh = energy / pow` and `mm = (energy % pow) * 60 / pow`: whole hours,
   * then whole minutes of the remaining fraction of an hour.
   */
  function Estimate(energy: int, pow: int): (e: Eta)
    requires 0 <= energy && 0 < pow
    ensures e.hh * pow + energy % pow == energy
    ensures 0 <= e.hh && 0 <= e.mm < 60
    ensures e.mm * pow <= (energy % pow) * 60 < (e.mm + 1) * pow
  {
    EstimateBounds(energy, pow);
    Eta(CDiv(energy, pow), CDiv(CMod(energy, pow) * 60, pow))
  }

  lemma EstimateBounds(energy: int, pow: int)
    requires 0 <= energy && 0 < pow
    ensures CDiv(energy, pow) * pow + energy % pow == energy && 0 <= CDiv(energy, pow)
    ensures var mm := CDiv(CMod(energy, pow) * 60, pow);
      0 <= mm < 60 && mm * pow <= (energy % pow) * 60 < (mm + 1) * pow
  {
    CDivModNatural(energy, pow);
    EuclidBounds(energy, pow);
    MinutesBound(energy % pow, pow);
  }

  /** Whole minutes of a fraction `rest / pow` of an hour: below 60, and truncated. */
  lemma MinutesBound(rest: int, pow: int)
    requires 0 <= rest < pow
    ensures var mm := CDiv(rest * 60, pow);
      0 <= mm < 60 && mm * pow <= rest * 60 < (mm + 1) * pow
  {
    var t := rest * 60;
    assert t < 60 * pow;
    CDivModNatural(t, pow);
    EuclidBounds(t, pow);
    var mm := t / pow;
    assert mm * pow < 60 * pow;
    CancelFactorStrict(mm, 60, pow);
  }

  /** The glyph for a status word and a percentage. */
  function GlyphOf(status: string, pct: int): Glyph
  {
    if status == "Charging" then Charging
    else if status == "Discharging" then Discharging(Tier(pct))
    else if status == "Full" then Full
    else Unknown
  }

  /** `getbattery`. A zero full-charge reading is a division by zero in the source. */
  function GetBattery(now: Option<int>, full: Option<int>, status: Option<string>, pow: Option<int>): (r: Reading)
    requires now.Some? && full.Some? && status.Some? && pow.Some? ==> full.value != 0
    ensures r.Blank? <==> now.None? || full.None? || status.None? || pow.None?
    ensures r.Shown? ==> r.pct == Percent(now.value, full.value)
    ensures r.Shown? && status.value == "Charging" ==> r.glyph == Charging
    ensures r.Shown? && status.value == "Discharging" ==> r.glyph == Discharging(Tier(r.pct))
    ensures r.Shown? && status.value == "Full" ==> r.glyph == Full
    ensures r.Shown? && status.value !in {"Charging", "Discharging", "Full"} ==> r.glyph == Unknown
    ensures r.Shown? ==> (r.eta.Some? <==>
      status.value in {"Charging", "Discharging"} && 0 <= Energy(status.value, now.value, full.value) && 0 < pow.value)
    ensures r.Shown? && r.eta.Some? ==> r.eta.value == Estimate(Energy(status.value, now.value, full.value), pow.value)
  {
    if now.None? || full.None? || status.None? || pow.None? then Blank
    else
      var pct := Percent(now.value, full.value);
      var energy := Energy(status.value, now.value, full.value);
      var eta := if energy < 0 || pow.value <= 0 then None else Some(Estimate(energy, pow.value));
      Shown(GlyphOf(status.value, pct), pct, eta)
  }

  /** Half charge, discharging at a tenth of it per hour: 50%, the third tier, 5 hours 0 minutes. */
  lemma HalfChargeExample()
    ensures GetBattery(Some(50), Some(100), Some("Discharging"), Some(10)) == Shown(Discharging(2), 50, Some(Eta(5, 0)))
  {
    CDivModNatural(5000, 100);
    CDivModNatural(50, 10);
    CDivModNatural(0, 10);
  }
}
