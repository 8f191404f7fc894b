/**
 * The CPU probe (`getcpuload`). It keeps the previous and the current
 * snapshot of the eight cumulative tick counters of /proc/stat, and the
 * frame of per-field deltas between them, all in `unsigned long long`.
 * Its output is the busy share `(u + n + s) / tot` of the frame, next to
 * the load averages; the floating-point formatting is not modelled, so the
 * probe yields the two integers of that fraction.
 */
module Cpu {
  import opened Wrappers
  import opened CInts

  /** `TICS_EDGE`: the noise floor, in percent of the per-processor frame. */
  const TicsEdge: int := 20

  /** The eight counters on the aggregate `cpu` line of /proc/stat. */
  datatype Counters = Counters(u: u64, n: u64, s: u64, i: u64, w: u64, x: u64, y: u64, z: u64)

  /** `CT_t`: eight tick fields, their total and the noise-floor edge. */
  datatype Tics = Tics(u: u64, n: u64, s: u64, i: u64, w: u64, x: u64, y: u64, z: u64, tot: u64, edge: u64)

  /** A zero-initialised static `CT_t`. */
  const NoTics := Tics(0, 0, 0, 0, 0, 0, 0, 0, 0, 0)

  /** The numerator and the divisor of the busy percentage. */
  datatype Load = Load(busy: u64, tot: u64)

  function CountersOf(t: Tics): Counters
  {
    Counters(t.u, t.n, t.s, t.i, t.w, t.x, t.y, t.z)
  }

  /** The true sum of the eight fields. */
  function FieldSum(t: Tics): int
  {
    t.u + t.n + t.s + t.i + t.w + t.x + t.y + t.z
  }

  /** `u + s + n + i + w + x + y + z` as C evaluates it, one wrapping addition at a time. */
  function Sum(t: Tics): u64
  {
    Add(Add(Add(Add(Add(Add(Add(t.u, t.s), t.n), t.i), t.w), t.x), t.y), t.z)
  }

  /** The number of times the running sum wrapped. */
  function Carries(t: Tics): nat
  {
    var a1 := Add(t.u, t.s);
    var a2 := Add(a1, t.n);
    var a3 := Add(a2, t.i);
    var a4 := Add(a3, t.w);
    var a5 := Add(a4, t.x);
    var a6 := Add(a5, t.y);
    Carry(t.u, t.s) + Carry(a1, t.n) + Carry(a2, t.i) + Carry(a3, t.w) + Carry(a4, t.x) + Carry(a5, t.y) + Carry(a6, t.z)
  }

  /** The wrapping sum differs from the true sum by a multiple of 2^64, and equals it when that is below 2^64. */
  lemma SumWraps(t: Tics)
    ensures Sum(t) == FieldSum(t) - Carries(t) * U64
    ensures FieldSum(t) < U64 ==> Sum(t) == FieldSum(t)
  {
  }

  /** `tot` holds the wrapping sum of the fields, as the probe stores it. */
  ghost predicate TotalKept(t: Tics)
  {
    t.tot == Sum(t)
  }

  /** `getnumcpus`: the processors online, taken as 1 when the query reports fewer. */
  function NumCpus(online: int): (n: int)
    ensures 1 <= n
    ensures 1 <= online ==> n == online
    ensures online < 1 ==> n == 1
  {
    if online < 1 then 1 else online
  }

  /** `((cur.tot - prv.tot) / num_cpus) / (100 / TICS_EDGE)` for a total delta `d`. */
  function Edge(d: u64, numCpus: int): u64
    requires 1 <= numCpus
  {
    (d / numCpus) / (100 / TicsEdge)
  }

  /** The busy ticks `u + n + s` of a frame, summed in `unsigned long long`. */
  function Busy(f: Tics): u64
  {
    Add(Add(f.u, f.n), f.s)
  }

  /**
   * The frame the probe reports between two snapshots: each field the
   * delta modulo 2^64, the total the delta of the two totals modulo 2^64,
   * and an empty frame replaced by a single idle tick so that the total
   * can divide. (`edge` is never set in the frame and stays 0.)
   */
  function Frame(prv: Tics, cur: Tics): Tics
  {
    var d := Deltas(prv, cur).(tot := Sub(cur.tot, prv.tot));
    if d.tot == 0 then d.(i := 1, tot := 1) else d
  }

  /** The frame's total is never 0, so the percentage can always be computed. */
  lemma FrameDivides(prv: Tics, cur: Tics)
    ensures 1 <= Frame(prv, cur).tot
    ensures Sub(cur.tot, prv.tot) != 0 ==> Frame(prv, cur) == Deltas(prv, cur).(tot := Sub(cur.tot, prv.tot))
  {
  }

  /** The frame's fields before the empty-frame rule: field-wise deltas modulo 2^64. */
  function Deltas(prv: Tics, cur: Tics): Tics
  {
    Tics(Sub(cur.u, prv.u), Sub(cur.n, prv.n), Sub(cur.s, prv.s), Sub(cur.i, prv.i),
         Sub(cur.w, prv.w), Sub(cur.x, prv.x), Sub(cur.y, prv.y), Sub(cur.z, prv.z), 0, 0)
  }

  /**
   * The wrapping sum of the field-wise deltas is the delta of the two
   * totals modulo 2^64, whatever wrapped on the way.
   */
  lemma FrameTotal(prv: Tics, cur: Tics)
    requires TotalKept(prv) && TotalKept(cur)
    ensures Sum(Deltas(prv, cur)) == Sub(cur.tot, prv.tot)
  {
    var d := Deltas(prv, cur);
    SumWraps(d);
    SumWraps(prv);
    SumWraps(cur);
    var borrows := Borrow(cur.u, prv.u) + Borrow(cur.n, prv.n) + Borrow(cur.s, prv.s) + Borrow(cur.i, prv.i)
                 + Borrow(cur.w, prv.w) + Borrow(cur.x, prv.x) + Borrow(cur.y, prv.y) + Borrow(cur.z, prv.z);
    assert FieldSum(d) == FieldSum(cur) - FieldSum(prv) + borrows * U64;
    SameResidue(Sum(d), Sub(cur.tot, prv.tot),
                borrows - Carries(d) + Carries(cur) - Carries(prv) - Borrow(cur.tot, prv.tot));
  }

  /** The edge never exceeds the delta of the totals it is computed from. */
  lemma EdgeWithinDelta(d: u64, numCpus: int)
    requires 1 <= numCpus
    ensures Edge(d, numCpus) <= d
  {
    DivAtMost(d, numCpus);
    DivAtMost(d / numCpus, 100 / TicsEdge);
  }

  /**
   * The noise-floor branch of `getcpuload` (`tics_frme.tot < tics_cur.edge`)
   * can never be taken: the frame total is the delta of the two totals,
   * and the edge is that delta divided by at least 5.
   */
  lemma NoiseFloorNeverFires(prv: Tics, cur: Tics, numCpus: int)
    requires TotalKept(prv) && TotalKept(cur) && 1 <= numCpus
    ensures Edge(Sub(cur.tot, prv.tot), numCpus) <= Sum(Deltas(prv, cur))
  {
    FrameTotal(prv, cur);
    EdgeWithinDelta(Sub(cur.tot, prv.tot), numCpus);
  }

  /**
   * When every counter has grown since the previous snapshot and their sum
   * has not passed 2^64, the busy ticks of the frame are at most its total,
   * so the busy percentage lies in [0, 100].
   */
  lemma BusyWithinTotal(prv: Tics, cur: Tics)
    requires TotalKept(prv) && TotalKept(cur)
    requires prv.u <= cur.u && prv.n <= cur.n && prv.s <= cur.s && prv.i <= cur.i
    requires prv.w <= cur.w && prv.x <= cur.x && prv.y <= cur.y && prv.z <= cur.z
    requires FieldSum(cur) < U64
    ensures Busy(Frame(prv, cur)) <= Frame(prv, cur).tot
  {
    SumWraps(prv);
    SumWraps(cur);
    assert FieldSum(prv) <= FieldSum(cur);
    assert Sub(cur.tot, prv.tot) == FieldSum(cur) - FieldSum(prv);
  }

  /**
   * The frame `getcpuload` assembles before the empty-frame rule: the
   * field-wise deltas and their wrapping sum, which is the delta of the
   * totals and so never below the edge.
   */
  lemma Settles(prv: Tics, cur: Tics, f: Tics, numCpus: int)
    requires TotalKept(prv) && TotalKept(cur) && 1 <= numCpus
    requires cur.edge == Edge(Sub(cur.tot, prv.tot), numCpus)
    requires f.(tot := 0, edge := 0) == Deltas(prv, cur) && f.tot == Sum(f) && f.edge == 0
    ensures cur.edge <= f.tot
    ensures f == Deltas(prv, cur).(tot := Sub(cur.tot, prv.tot))
  {
    var d := Deltas(prv, cur);
    assert Sum(f) == Sum(d) by {
      assert f.u == d.u && f.n == d.n && f.s == d.s && f.i == d.i;
      assert f.w == d.w && f.x == d.x && f.y == d.y && f.z == d.z;
    }
    FrameTotal(prv, cur);
    NoiseFloorNeverFires(prv, cur, numCpus);
  }

  /**
   * The read of /proc/stat into `tics_cur`: the eight counters, their
   * wrapping sum, and the edge computed from the growth of that sum since
   * the previous snapshot.
   */
  method TakeSnapshot(p: Tics, c: Counters, numCpus: int) returns (t: Tics)
    requires 1 <= numCpus
    ensures CountersOf(t) == c && TotalKept(t)
    ensures t.edge == Edge(Sub(t.tot, p.tot), numCpus)
  {
    t := p.(u := c.u, n := c.n, s := c.s, i := c.i, w := c.w, x := c.x, y := c.y, z := c.z);
    t := t.(tot := Sum(t));
    t := t.(edge := Edge(Sub(t.tot, p.tot), numCpus));
  }

  /**
   * The frame `tics_frme` between the snapshots `p` and `t`, built over its
   * previous contents `f0`: the field-wise deltas and their sum, the
   * noise-floor reset, and the single idle tick of an empty frame.
   */
  method MeasureFrame(p: Tics, t: Tics, f0: Tics, numCpus: int) returns (f: Tics)
    requires TotalKept(p) && TotalKept(t) && 1 <= numCpus
    requires t.edge == Edge(Sub(t.tot, p.tot), numCpus) && f0.edge == 0
    ensures f == Frame(p, t)
  {
    f := f0.(u := Sub(t.u, p.u), s := Sub(t.s, p.s), n := Sub(t.n, p.n), i := Sub(t.i, p.i),
             w := Sub(t.w, p.w), x := Sub(t.x, p.x), y := Sub(t.y, p.y), z := Sub(t.z, p.z));
    f := f.(tot := Sum(f));
    ghost var deltas := f;
    if f.tot < t.edge {
      f := f.(u := 0, s := 0, n := 0, i := 0, w := 0, x := 0, y := 0, z := 0);
    }
    Settles(p, t, deltas, numCpus);
    if 1 > f.tot {
      f := f.(i := 1, tot := 1);
    }
  }

  class CpuLoad {
    /** `tics_prv`, `tics_cur`, `tics_frme`: the three static snapshots. */
    var prv: Tics
    var cur: Tics
    var frme: Tics

    ghost predicate Valid()
      reads this
    {
      TotalKept(prv) && TotalKept(cur) && frme.edge == 0
    }

    /** Static storage starts zeroed. */
    constructor ()
      ensures Valid()
      ensures prv == NoTics && cur == NoTics && frme == NoTics
    {
      prv, cur, frme := NoTics, NoTics, NoTics;
    }

    /**
     * `getcpuload`. `loadAvgOk` says whether `getloadavg` succeeded (its
     * three figures are only printed); `stat` is the `cpu` line of
     * /proc/stat, `None` when it cannot be opened. The previous snapshot
     * is taken before the read, so a failed read leaves `prv == cur`.
     */
    method GetCpuLoad(loadAvgOk: bool, stat: Option<Counters>, numCpus: int) returns (r: Option<Load>)
      requires Valid() && 1 <= numCpus
      modifies this
      ensures Valid()
      ensures !loadAvgOk ==> r.None? && prv == old(prv) && cur == old(cur) && frme == old(frme)
      ensures loadAvgOk ==> prv == old(cur)
      ensures loadAvgOk && stat.None? ==> r.None? && cur == old(cur) && frme == old(frme)
      ensures loadAvgOk && stat.Some? ==>
        && CountersOf(cur) == stat.value
        && cur.edge == Edge(Sub(cur.tot, prv.tot), numCpus)
        && frme == Frame(prv, cur)
        && r == Some(Load(Busy(frme), frme.tot))
    {
      if !loadAvgOk {
        return None;
      }
      var p := cur;
      prv := p;
      if stat.None? {
        return None;
      }
      var t := TakeSnapshot(p, stat.value, numCpus);
      var f := MeasureFrame(p, t, frme, numCpus);
      cur, frme := t, f;
      r := Some(Load(Add(Add(f.u, f.n), f.s), f.tot));
    }
  }
}
