/**
 * The connection probe: `getbandwidth`, which keeps the byte totals of the
 * previous refresh and reports the change since, `bwstr`, which picks the
 * unit a rate is shown in, and `getconnection`, which decides between a
 * wired link, a wireless link and no link from the two interfaces'
 * operational states, and measures bandwidth only when a link is up.
 *
 * Rates stay integers here: the division by 1024.0 and the `%.1f`/`%.0f`
 * formatting of `double`s are replaced by exact reals, and the strings
 * the probe assembles by a datatype.
 */
module Connection {
  import opened Wrappers
  import opened CInts
  import opened CStrings
  import opened NetDev

  /** The bytes received and sent since the previous refresh, in `unsigned long long`. */
  datatype Rates = Rates(down: u64, up: u64)

  /** A rate as `bwstr` shows it: in KiB/s, or in MiB/s above 1024 KiB/s. */
  datatype Shown = Kbps(kib: real) | Mbps(mib: real)

  /** `delta / 1024.0`: a byte count as KiB (with no rounding to `double`). */
  function KiB(d: u64): real
  {
    d as real / 1024.0
  }

  /** `bwstr`: MiB/s exactly when the rate is above 1024 KiB/s, KiB/s otherwise. */
  function BwStr(bw: real): (r: Shown)
    ensures r.Mbps? <==> bw > 1024.0
    ensures r.Mbps? ==> r.mib * 1024.0 == bw && r.mib > 1.0
    ensures r.Kbps? ==> r.kib == bw
  {
    if bw > 1024.0 then Mbps(bw / 1024.0) else Kbps(bw)
  }

  /** A byte delta is shown in MiB/s exactly when it exceeds one MiB (1048576 bytes). */
  lemma MegaIffOverMiB(d: u64)
    ensures BwStr(KiB(d)).Mbps? <==> d > 1048576
  {
    if d > 1048576 {
      assert d as real > 1048576.0;
    } else {
      assert d as real <= 1048576.0;
    }
  }

  /** The totals `parsenetdev` arrives at when it starts from zero, as `getbandwidth` has it do. */
  function NetDevTotals(lines: seq<string>, stale: Totals): Totals
    requires AllHaveColons(DataLines(lines))
  {
    Fold(Acc(Totals(0, 0), stale), Views(DataLines(lines))).abs
  }

  /**
   * The delta `getbandwidth` reports is the true growth of a counter when
   * it grew, and the growth plus 2^64 when it went down (a counter reset
   * is not clamped, it wraps to a huge rate); either way it brings the
   * previous total to the new one.
   */
  lemma DeltaRestores(prev: u64, now: u64)
    ensures Add(prev, Sub(now, prev)) == now
    ensures prev <= now ==> Sub(now, prev) == now - prev
    ensures now < prev ==> Sub(now, prev) == now - prev + U64 && Sub(now, prev) >= U64 - prev
  {
  }

  /** The link the two operational states select, before any bandwidth is measured. */
  datatype Link = Wired | Wireless(strength: int)

  /**
   * The decision of `getconnection`: `Blank` when a state file cannot be
   * read (`""`), `Offline` when neither interface is up (`"offline"`), and
   * otherwise the link that is up, the wired one first.
   */
  datatype Decision = Blank | Offline | Up(link: Link)

  /**
   * What `getconnection` shows: its decision, or for a link the two rates.
   * `FreedLiteral` is the bandwidth-failure path: the source then hands the
   * string literal "---- KiB/s" to `free`, which is undefined behaviour and
   * under glibc aborts the process instead of returning a line.
   */
  datatype Conn =
    | NoConn(decision: Decision)
    | Online(link: Link, rates: (Shown, Shown))
    | FreedLiteral(link: Link)

  /**
   * `readvaluesfromfile(file, "%s\n", status)`: the first word of the
   * file, or the previous contents of `status` when the file holds none
   * (the conversion fails and assigns nothing).
   */
  function ReadWord(content: string, status: string): string
  {
    match NthWord(content, 0, 0)
    case None => status
    case Some(w) => w
  }

  /**
   * The link decision. `status0` is what the `status` buffer holds before
   * the first read; `strength` is what the `strength` variable holds once
   * the wireless strength has been queried.
   */
  function Decide(wired: Option<string>, wifi: Option<string>, status0: string, strength: int): (d: Decision)
    ensures d.Blank? <==> wired.None? || wifi.None?
    ensures d.Up? && d.link.Wired? <==> wired.Some? && wifi.Some? && ReadWord(wired.value, status0) == "up"
    ensures d == Up(Wireless(strength)) <==>
      && wired.Some? && wifi.Some? && ReadWord(wired.value, status0) != "up"
      && ReadWord(wifi.value, ReadWord(wired.value, status0)) == "up"
    ensures d.Up? && d.link.Wireless? ==> d.link.strength == strength
  {
    if wired.None? then Blank
    else
      var eth0 := ReadWord(wired.value, status0);
      if wifi.None? then Blank
      else
        var wlan := ReadWord(wifi.value, eth0);
        if eth0 == "up" then Up(Wired)
        else if wlan == "up" then Up(Wireless(strength))
        else Offline
  }

  /** A wired link that is up wins whatever the wireless interface says. */
  lemma WiredFirst(wired: string, wifi: string, status0: string, strength: int, other: string)
    requires ReadWord(wired, status0) == "up"
    ensures Decide(Some(wired), Some(wifi), status0, strength) == Decide(Some(wired), Some(other), status0, strength) == Up(Wired)
  {
  }

  /**
   * An empty wireless state file is read as whatever the wired read left in
   * the buffer: with the wired interface down, it never counts as up.
   */
  lemma EmptyWifiReadsWired(wired: string, status0: string, strength: int)
    requires ReadWord(wired, status0) != "up"
    ensures Decide(Some(wired), Some(""), status0, strength) == Offline
  {
  }

  class NetProbe {
    /** The static `rec` and `sent` of `getbandwidth`: the totals of the previous refresh. */
    var rec: u64
    var sent: u64

    /** Static storage starts zeroed. */
    constructor ()
      ensures rec == 0 && sent == 0
    {
      rec, sent := 0, 0;
    }

    /**
     * `getbandwidth`: parse /proc/net/dev from zero totals; on failure
     * report nothing and keep the previous totals; otherwise report the
     * deltas from the previous totals in `unsigned long long` and keep
     * the new totals.
     */
    method GetBandwidth(file: Option<seq<string>>, stale: Totals) returns (r: Option<Rates>)
      requires file.Some? ==> AllHaveColons(DataLines(file.value))
      modifies this
      ensures file.None? ==> r.None? && rec == old(rec) && sent == old(sent)
      ensures file.Some? ==>
        && rec == NetDevTotals(file.value, stale).received
        && sent == NetDevTotals(file.value, stale).sent
        && r == Some(Rates(Sub(rec, old(rec)), Sub(sent, old(sent))))
    {
      var rval, t := ParseNetDev(file, Totals(0, 0), stale);
      if rval != 0 {
        return None;
      }
      var newrec, newsent := t.received, t.sent;
      r := Some(Rates(Sub(newrec, rec), Sub(newsent, sent)));
      rec, sent := newrec, newsent;
    }

    /**
     * `getconnection`. The operational-state files are `wired` and `wifi`
     * (`None` when they cannot be opened); /proc/net/dev is `netdev`.
     * Bandwidth is measured, and the totals move on, only when a link is up.
     */
    method GetConnection(wired: Option<string>, wifi: Option<string>, status0: string, strength: int,
                         netdev: Option<seq<string>>, stale: Totals) returns (c: Conn)
      requires netdev.Some? ==> AllHaveColons(DataLines(netdev.value))
      modifies this
      ensures !Decide(wired, wifi, status0, strength).Up? ==>
        c == NoConn(Decide(wired, wifi, status0, strength)) && rec == old(rec) && sent == old(sent)
      ensures Decide(wired, wifi, status0, strength).Up? ==>
        && !c.NoConn? && c.link == Decide(wired, wifi, status0, strength).link
        && (netdev.None? ==> c.FreedLiteral? && rec == old(rec) && sent == old(sent))
        && (netdev.Some? ==>
              && c.Online?
              && rec == NetDevTotals(netdev.value, stale).received
              && sent == NetDevTotals(netdev.value, stale).sent
              && c.rates == (BwStr(KiB(Sub(rec, old(rec)))), BwStr(KiB(Sub(sent, old(sent))))))
    {
      var d := Decide(wired, wifi, status0, strength);
      if !d.Up? {
        return NoConn(d);
      }
      var bw := GetBandwidth(netdev, stale);
      if bw.None? {
        return FreedLiteral(d.link);
      }
      c := Online(d.link, (BwStr(KiB(bw.value.down)), BwStr(KiB(bw.value.up))));
    }
  }
}
