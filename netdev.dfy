/**
 * The network counter parser (`parsenetdev`). It skips the two header
 * lines of /proc/net/dev, leaves out every line that mentions `lo:`, and
 * for each other line reads the first and the ninth number after the
 * first colon (bytes received and bytes sent) and adds them to the totals
 * it was handed, in `unsigned long long`.
 *
 * The file is given as the lines `fgets` delivers. The two scan targets
 * `receivedacc` and `sentacc` are locals the C code never initialises and
 * `sscanf` only assigns when its conversions succeed; their starting
 * contents are a parameter (`stale`), and a failed conversion leaves the
 * value of the previous line in place.
 */
module NetDev {
  import opened Wrappers
  import opened CInts
  import opened CStrings

  /** Bytes received and bytes sent. */
  datatype Totals = Totals(received: u64, sent: u64)

  /** `strstr(buf, ":")` finds a colon. */
  predicate HasColon(line: string)
  {
    Find(line, 0, ':').Some?
  }

  /** `strstr(buf, "lo:")` finds the loopback interface's name (anywhere in the line). */
  predicate Loopback(line: string)
  {
    OccursFrom(line, "lo:", 0)
  }

  /** The lines the `while (fgets ...)` loop sees: all but the two headers. */
  function DataLines(lines: seq<string>): (data: seq<string>)
    ensures |lines| <= 2 ==> data == []
    ensures 2 < |lines| ==> |data| == |lines| - 2 && forall k :: 0 <= k < |data| ==> data[k] == lines[k + 2]
  {
    if |lines| <= 2 then [] else lines[2..]
  }

  /**
   * What the loop takes from one line: nothing from a loopback line;
   * otherwise what `sscanf(datastart + 1, "%llu %*d %*d %*d %*d %*d %*d
   * %*d %llu", ...)` reads after the first colon -- the first conversion
   * (bytes received) and the ninth (bytes sent), each `None` when the
   * chain stops before it.
   */
  datatype LineView = Loop | Data(first: Option<u64>, ninth: Option<u64>)

  /** The `n`-th conversion of the chain after the first colon, as `unsigned long long`. */
  function Conversion(line: string, n: nat): Option<u64>
    requires HasColon(line)
  {
    match NthNumeral(line, Find(line, 0, ':').value + 1, n)
    case None => None
    case Some(x) => Some(ToU64(x))
  }

  function View(line: string): LineView
    requires HasColon(line)
  {
    if Loopback(line) then Loop else Data(Conversion(line, 0), Conversion(line, 8))
  }

  /** A chain that reaches the ninth conversion has passed the first. */
  lemma NinthAfterFirst(line: string)
    requires HasColon(line) && View(line).Data? && View(line).ninth.Some?
    ensures View(line).first.Some?
  {
    NthNumeralReached(line, Find(line, 0, ':').value + 1, 0, 8);
  }

  predicate AllHaveColons(lines: seq<string>)
  {
    forall k :: 0 <= k < |lines| ==> HasColon(lines[k])
  }

  /** The view of each line, in order. */
  function Views(lines: seq<string>): (vs: seq<LineView>)
    requires AllHaveColons(lines)
    ensures |vs| == |lines| && forall k :: 0 <= k < |lines| ==> vs[k] == View(lines[k])
  {
    seq(|lines|, k requires 0 <= k < |lines| && AllHaveColons(lines) => View(lines[k]))
  }

  /** The totals and the two scan targets, as the loop carries them from line to line. */
  datatype Acc = Acc(abs: Totals, acc: Totals)

  /** Unsigned addition of two pairs of totals. */
  function Plus(a: Totals, b: Totals): Totals
  {
    Totals(Add(a.received, b.received), Add(a.sent, b.sent))
  }

  /**
   * One iteration of the loop: a loopback line changes nothing; any other
   * line sets the scan targets it reaches, keeps the previous contents of
   * those it does not, and adds both targets to the totals.
   */
  function Step(st: Acc, v: LineView): Acc
  {
    match v
    case Loop => st
    case Data(first, ninth) =>
      var a := Totals(if first.Some? then first.value else st.acc.received,
                      if ninth.Some? then ninth.value else st.acc.sent);
      Acc(Plus(st.abs, a), a)
  }

  /** The loop over the lines, one `Step` per line in order. */
  function Fold(st: Acc, vs: seq<LineView>): Acc
    decreases |vs|
  {
    if vs == [] then st else Step(Fold(st, vs[..|vs| - 1]), vs[|vs| - 1])
  }

  /**
   * `parsenetdev`: `file` is `None` when /proc/net/dev cannot be opened,
   * which leaves the totals alone and reports failure (1); otherwise the
   * data lines are added in and it reports success (0). A data line
   * without a colon would make the C code read through a null pointer, so
   * every data line must carry one.
   */
  method ParseNetDev(file: Option<seq<string>>, abs: Totals, stale: Totals) returns (rval: int, abs': Totals)
    requires file.Some? ==> AllHaveColons(DataLines(file.value))
    ensures rval == 0 || rval == 1
    ensures rval == 1 <==> file.None?
    ensures file.None? ==> abs' == abs
    ensures file.Some? ==> abs' == Fold(Acc(abs, stale), Views(DataLines(file.value))).abs
  {
    if file.None? {
      return 1, abs;
    }
    var lines := file.value;
    var data := DataLines(lines);
    ghost var vs := Views(data);
    var st := Acc(abs, stale);
    var n := 0;
    while n < |data|
      invariant n <= |data|
      invariant st == Fold(Acc(abs, stale), vs[..n])
    {
      var line := data[n];
      assert vs[..n + 1][..n] == vs[..n];
      if !Loopback(line) {
        var a := st.acc;
        var first := Conversion(line, 0);
        if first.Some? {
          a := a.(received := first.value);
        }
        var ninth := Conversion(line, 8);
        if ninth.Some? {
          a := a.(sent := ninth.value);
        }
        st := Acc(Plus(st.abs, a), a);
      }
      n := n + 1;
    }
    assert vs[..n] == vs;
    return 0, st.abs;
  }

  /** Every line that is not loopback reaches all nine conversions. */
  predicate Complete(vs: seq<LineView>)
  {
    forall k :: 0 <= k < |vs| && vs[k].Data? ==> vs[k].first.Some? && vs[k].ninth.Some?
  }

  /** The true sums of the received and of the sent bytes over the lines that are not loopback. */
  function ReceivedSum(vs: seq<LineView>): int
    requires Complete(vs)
    decreases |vs|
  {
    if vs == [] then 0
    else
      var last := vs[|vs| - 1];
      ReceivedSum(vs[..|vs| - 1]) + (if last.Loop? then 0 else last.first.value)
  }

  function SentSum(vs: seq<LineView>): int
    requires Complete(vs)
    decreases |vs|
  {
    if vs == [] then 0
    else
      var last := vs[|vs| - 1];
      SentSum(vs[..|vs| - 1]) + (if last.Loop? then 0 else last.ninth.value)
  }

  /**
   * When every line that is not loopback scans completely, the loop leaves
   * the totals at their starting values plus the received and sent columns
   * of exactly those lines, reduced modulo 2^64, whatever the scan targets
   * held.
   */
  lemma {:induction false} FoldSums(st: Acc, vs: seq<LineView>)
    requires Complete(vs)
    ensures Fold(st, vs).abs.received == Wrap(st.abs.received + ReceivedSum(vs))
    ensures Fold(st, vs).abs.sent == Wrap(st.abs.sent + SentSum(vs))
    decreases |vs|
  {
    if vs != [] {
      var init := vs[..|vs| - 1];
      var last := vs[|vs| - 1];
      assert Complete(init) by {
        forall k | 0 <= k < |init| && init[k].Data?
          ensures init[k].first.Some? && init[k].ninth.Some?
        {
          assert init[k] == vs[k];
        }
      }
      FoldSums(st, init);
      var prev := Fold(st, init);
      if last.Data? {
        AddOn(st.abs.received, prev.abs.received, ReceivedSum(init), last.first.value, ReceivedSum(vs));
        AddOn(st.abs.sent, prev.abs.sent, SentSum(init), last.ninth.value, SentSum(vs));
      }
    }
  }

  /** One more addend: `p` reduces `a + s`, so `p + c` in `unsigned long long` reduces `a + s + c`. */
  lemma AddOn(a: int, p: u64, s: int, c: u64, total: int)
    requires p == Wrap(a + s) && total == s + c
    ensures Add(p, c) == Wrap(a + total)
  {
    WrapAdd(a, s, c);
  }

  /** The two header lines never count, however they read. */
  lemma HeadersIgnored(h1: string, h2: string, body: seq<string>)
    ensures DataLines([h1, h2] + body) == body
  {
  }

  /** A loopback line contributes nothing and leaves the scan targets as they were. */
  lemma LoopbackSkipped(st: Acc, vs: seq<LineView>)
    ensures Fold(st, vs + [Loop]) == Fold(st, vs)
  {
    assert (vs + [Loop])[..|vs|] == vs;
  }
}
