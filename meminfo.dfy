/**
 * The memory probe (`getmeminfo`). It reads /proc/meminfo into a fixed
 * buffer, walks it line by line, looks each row name up in a sorted table
 * of nine names by binary search, and stores the number after the colon in
 * that name's static slot. From the slots it derives main and swap memory
 * in use, in `unsigned long` kilobytes.
 */
module MemInfo {
  import opened Wrappers
  import opened CInts
  import opened CStrings

  /** The row names the probe keeps, in the order of the table (ascending by `strcmp`). */
  const Names: seq<string> := ["Buffers", "Cached", "MemFree", "MemTotal", "SReclaimable",
                               "Shmem", "SwapCached", "SwapFree", "SwapTotal"]

  /** Slot numbers, one per table entry. */
  const Buffers := 0
  const Cached := 1
  const MemFree := 2
  const MemTotal := 3
  const SReclaimable := 4
  const Shmem := 5
  const SwapCached := 6
  const SwapFree := 7
  const SwapTotal := 8

  /** `sizeof buf`: the file is read into 8192 bytes, the last one kept for the terminator. */
  const BufSize := 8192
  /** `sizeof namebuf`: names of this length or longer are skipped. */
  const NameSize := 32

  predicate Ascending(t: seq<string>)
  {
    forall j, k :: 0 <= j < k < |t| ==> StrCmp(t[j], t[k]) < 0
  }

  /** Each neighbour above the one before makes the whole table ascending. */
  lemma {:induction false} ChainAscends(t: seq<string>, j: nat, k: nat)
    requires forall m :: 0 <= m < |t| - 1 ==> StrCmp(t[m], t[m + 1]) < 0
    requires j < k < |t|
    ensures StrCmp(t[j], t[k]) < 0
    decreases k - j
  {
    if j + 1 < k {
      ChainAscends(t, j, k - 1);
      StrCmpTransitive(t[j], t[k - 1], t[k]);
    }
  }

  /** Each table name is below the next one. */
  lemma NeighboursAscend()
    ensures forall m :: 0 <= m < |Names| - 1 ==> StrCmp(Names[m], Names[m + 1]) < 0
  {
    FirstNeighboursAscend();
    LastNeighboursAscend();
  }

  lemma FirstNeighboursAscend()
    ensures forall m :: 0 <= m < 4 ==> StrCmp(Names[m], Names[m + 1]) < 0
  {
    StrCmpAt(Names[0], Names[1], 0);
    StrCmpAt(Names[1], Names[2], 0);
    StrCmpAt(Names[2], Names[3], 3);
    StrCmpAt(Names[3], Names[4], 0);
  }

  lemma LastNeighboursAscend()
    ensures forall m :: 4 <= m < 8 ==> StrCmp(Names[m], Names[m + 1]) < 0
  {
    StrCmpAt(Names[4], Names[5], 1);
    StrCmpAt(Names[5], Names[6], 1);
    StrCmpAt(Names[6], Names[7], 4);
    StrCmpAt(Names[7], Names[8], 4);
  }

  /** The table is sorted as `bsearch` with `strcmp` requires. */
  lemma TableAscending()
    ensures Ascending(Names)
  {
    NeighboursAscend();
    forall j, k | 0 <= j < k < |Names|
      ensures StrCmp(Names[j], Names[k]) < 0
    {
      ChainAscends(Names, j, k);
    }
  }

  /** The slot of a row name: where it stands in the table, if it does. */
  function SlotOf(name: string): (r: Option<nat>)
    ensures r.Some? ==> r.value < |Names|
  {
    SlotFrom(name, 0)
  }

  function SlotFrom(name: string, k: nat): (r: Option<nat>)
    requires k <= |Names|
    ensures r.Some? ==> k <= r.value < |Names|
    decreases |Names| - k
  {
    if k == |Names| then None
    else if Names[k] == name then Some(k)
    else SlotFrom(name, k + 1)
  }

  /** A name has a slot exactly when it is in the table, and the slot holds that name. */
  lemma SlotOfMeaning(name: string)
    ensures SlotOf(name).Some? ==> Names[SlotOf(name).value] == name
    ensures SlotOf(name).None? <==> name !in Names
  {
    SlotFromMeaning(name, 0);
  }

  lemma {:induction false} SlotFromMeaning(name: string, k: nat)
    requires k <= |Names|
    ensures SlotFrom(name, k).Some? ==> Names[SlotFrom(name, k).value] == name
    ensures SlotFrom(name, k).None? <==> forall j :: k <= j < |Names| ==> Names[j] != name
    decreases |Names| - k
  {
    if k < |Names| && Names[k] != name {
      SlotFromMeaning(name, k + 1);
    }
  }

  /** Table names are distinct, so a name has one slot only. */
  lemma SlotUnique(name: string, k: nat)
    requires k < |Names| && Names[k] == name
    ensures SlotOf(name) == Some(k)
  {
    TableAscending();
    SlotOfMeaning(name);
  }

  /** A name below a table entry is below every later entry too. */
  lemma BelowFrom(name: string, mid: nat)
    requires mid < |Names| && StrCmp(name, Names[mid]) < 0
    ensures forall k :: mid <= k < |Names| ==> StrCmp(name, Names[k]) < 0
  {
    TableAscending();
    forall k | mid < k < |Names|
      ensures StrCmp(name, Names[k]) < 0
    {
      StrCmpTransitive(name, Names[mid], Names[k]);
    }
  }

  /** A name above a table entry is above every earlier entry too. */
  lemma AboveUpTo(name: string, mid: nat)
    requires mid < |Names| && StrCmp(name, Names[mid]) > 0
    ensures forall k :: 0 <= k <= mid ==> StrCmp(Names[k], name) < 0
  {
    TableAscending();
    StrCmpAntisymmetric(Names[mid], name);
    forall k | 0 <= k < mid
      ensures StrCmp(Names[k], name) < 0
    {
      StrCmpTransitive(Names[k], Names[mid], name);
    }
  }

  /**
   * `bsearch` as the C library performs it on the table with
   * `compare_mem_table_structs`: halve `[l, u)` around `(l + u) / 2` until
   * the name compares equal or the range is empty.
   */
  method Lookup(name: string) returns (slot: Option<nat>)
    ensures slot.Some? ==> slot.value < |Names| && Names[slot.value] == name
    ensures slot.None? <==> name !in Names
    ensures slot == SlotOf(name)
  {
    var l, u := 0, |Names|;
    while l < u
      invariant 0 <= l <= u <= |Names|
      invariant forall k :: 0 <= k < l ==> StrCmp(Names[k], name) < 0
      invariant forall k :: u <= k < |Names| ==> StrCmp(name, Names[k]) < 0
      decreases u - l
    {
      var mid := (l + u) / 2;
      var cmp := StrCmp(name, Names[mid]);
      if cmp < 0 {
        BelowFrom(name, mid);
        u := mid;
      } else if cmp > 0 {
        AboveUpTo(name, mid);
        l := mid + 1;
      } else {
        SlotUnique(name, mid);
        return Some(mid);
      }
    }
    assert forall k :: 0 <= k < |Names| ==> Names[k] != name;
    SlotOfMeaning(name);
    return None;
  }

  /**
   * What the probe sees of the file: the bytes one `read` of at most
   * `BufSize - 1` bytes delivers, up to the first NUL (where `strchr`
   * would stop).
   */
  function Buffer(raw: string): string
  {
    var r := if |raw| < BufSize - 1 then raw else raw[..BufSize - 1];
    match Find(r, 0, '\0')
    case None => r
    case Some(z) => r[..z]
  }

  /**
   * The buffer is a prefix of the file that fits with its terminator and
   * holds no NUL; it stops short of the read limit only at a NUL or at the
   * end of the file.
   */
  lemma BufferPrefix(raw: string)
    ensures var b := Buffer(raw);
      && |b| < BufSize && |b| <= |raw| && '\0' !in b
      && b == raw[..|b|]
      && (|b| < |raw| && |b| < BufSize - 1 ==> raw[|b|] == '\0')
  {
    var r := if |raw| < BufSize - 1 then raw else raw[..BufSize - 1];
    FindFirst(r, 0, '\0');
  }

  /**
   * Where the row at `head` ends: no colon after `head` (the walk stops),
   * a colon with no newline after it (the last row), or a colon and the
   * newline after it (the walk goes on after the newline).
   */
  datatype Split = Stop | Last(colon: nat) | Next(colon: nat, nl: nat)

  /** The two `strchr` calls of one row of the loop. */
  function NextRow(b: string, head: nat): (r: Split)
    requires head <= |b|
    ensures r.Last? ==> head <= r.colon < |b| && b[r.colon] == ':'
    ensures r.Next? ==> head <= r.colon < r.nl < |b| && b[r.colon] == ':' && b[r.nl] == '\n'
  {
    match Find(b, head, ':')
    case None => Stop
    case Some(colon) =>
      match Find(b, colon + 1, '\n')
      case None => Last(colon)
      case Some(nl) => Next(colon, nl)
  }

  /**
   * The row loop of `getmeminfo` from `head` on: find the next colon (none
   * ends the walk); unless the name before it is too long for the name
   * buffer, store the number `strtoull` reads after it under that name;
   * then continue after the next newline (none ends the walk).
   */
  function Scanned(b: string, kb: seq<u64>, head: nat): (kb': seq<u64>)
    requires |kb| == |Names| && head <= |b|
    ensures |kb'| == |Names|
    decreases |b| - head
  {
    match NextRow(b, head)
    case Stop => kb
    case Last(colon) => AfterRow(b, kb, head, colon)
    case Next(colon, nl) => Scanned(b, AfterRow(b, kb, head, colon), nl + 1)
  }

  /** One row of the loop: the slots after the row at `head`, whose colon is at `colon`. */
  function AfterRow(b: string, kb: seq<u64>, head: nat, colon: nat): (kb': seq<u64>)
    requires |kb| == |Names| && head <= colon < |b|
    ensures |kb'| == |Names|
  {
    if colon - head >= NameSize then kb
    else
      seq(|Names|, k requires 0 <= k < |Names| == |kb| && colon < |b| =>
        if Names[k] == b[head..colon] then StrToU64At(b, colon + 1) else kb[k])
  }

  /** The walk ends at `head` when no colon follows it. */
  lemma ScannedStop(b: string, kb: seq<u64>, head: nat)
    requires |kb| == |Names| && head <= |b| && Find(b, head, ':').None?
    ensures Scanned(b, kb, head) == kb
  {
    assert NextRow(b, head) == Stop;
  }

  /** The walk stops after the row at `head` when no newline follows its colon. */
  lemma ScannedLast(b: string, kb: seq<u64>, head: nat, colon: nat, kb': seq<u64>)
    requires |kb| == |Names| && head <= |b|
    requires Find(b, head, ':') == Some(colon) && Find(b, colon + 1, '\n').None?
    requires kb' == AfterRow(b, kb, head, colon)
    ensures Scanned(b, kb, head) == kb'
  {
    assert NextRow(b, head) == Last(colon);
  }

  /** The walk goes on after the newline that follows the colon of the row at `head`. */
  lemma ScannedNext(b: string, kb: seq<u64>, head: nat, colon: nat, nl: nat, kb': seq<u64>)
    requires |kb| == |Names| && head <= |b|
    requires Find(b, head, ':') == Some(colon) && Find(b, colon + 1, '\n') == Some(nl)
    requires kb' == AfterRow(b, kb, head, colon)
    ensures Scanned(b, kb, head) == Scanned(b, kb', nl + 1)
  {
    assert NextRow(b, head) == Next(colon, nl);
  }

  /**
   * The row at `head` stores the number after its colon in the slot the
   * table gives its name, and stores nothing when the name has no slot or
   * does not fit the name buffer.
   */
  lemma RowSlot(b: string, kb: seq<u64>, head: nat, colon: nat)
    requires |kb| == |Names| && head <= colon < |b|
    ensures colon - head >= NameSize || SlotOf(b[head..colon]).None? ==> AfterRow(b, kb, head, colon) == kb
    ensures colon - head < NameSize && SlotOf(b[head..colon]).Some? ==>
      AfterRow(b, kb, head, colon) == kb[SlotOf(b[head..colon]).value := StrToU64At(b, colon + 1)]
  {
    var name := b[head..colon];
    SlotOfMeaning(name);
    forall k | 0 <= k < |Names| && Names[k] == name
      ensures SlotOf(name) == Some(k)
    {
      SlotUnique(name, k);
    }
  }

  /** A row the loop visits: where its name starts and where its colon stands. */
  datatype Row = Row(head: nat, colon: nat)

  /** The rows the loop visits from `head` on, in order. */
  function Rows(b: string, head: nat): (rs: seq<Row>)
    requires head <= |b|
    ensures forall i :: 0 <= i < |rs| ==> head <= rs[i].head <= rs[i].colon < |b|
    decreases |b| - head
  {
    match NextRow(b, head)
    case Stop => []
    case Last(colon) => [Row(head, colon)]
    case Next(colon, nl) => [Row(head, colon)] + Rows(b, nl + 1)
  }

  predicate Within(b: string, rs: seq<Row>)
  {
    forall i :: 0 <= i < |rs| ==> rs[i].head <= rs[i].colon < |b|
  }

  /** The rows stored in order. */
  function Apply(b: string, kb: seq<u64>, rs: seq<Row>): (kb': seq<u64>)
    requires |kb| == |Names| && Within(b, rs)
    ensures |kb'| == |Names|
    decreases |rs|
  {
    if rs == [] then kb else Apply(b, AfterRow(b, kb, rs[0].head, rs[0].colon), rs[1..])
  }

  /** The loop stores exactly the rows it visits, in order. */
  lemma {:induction false} ScannedRows(b: string, kb: seq<u64>, head: nat)
    requires |kb| == |Names| && head <= |b|
    ensures Scanned(b, kb, head) == Apply(b, kb, Rows(b, head))
    decreases |b| - head
  {
    var rs := Rows(b, head);
    match NextRow(b, head)
    case Stop =>
    case Last(colon) =>
      assert rs[1..] == [];
    case Next(colon, nl) =>
      assert rs[1..] == Rows(b, nl + 1);
      ScannedRows(b, AfterRow(b, kb, head, colon), nl + 1);
  }

  /**
   * The value of the last row named `name` (the number after its colon),
   * or `dflt` when there is none.
   */
  function LastValue(b: string, rs: seq<Row>, name: string, dflt: u64): u64
    requires Within(b, rs)
    decreases |rs|
  {
    if rs == [] then dflt
    else
      var r := rs[0];
      LastValue(b, rs[1..], name, if b[r.head..r.colon] == name then StrToU64At(b, r.colon + 1) else dflt)
  }

  /**
   * Stored rows leave every slot holding the value of the last row bearing
   * its name, and the value it had before when no row does.
   */
  lemma {:induction false} ApplySlot(b: string, kb: seq<u64>, rs: seq<Row>, k: nat)
    requires |kb| == |Names| && Within(b, rs) && k < |Names|
    ensures Apply(b, kb, rs)[k] == LastValue(b, rs, Names[k], kb[k])
    decreases |rs|
  {
    if rs != [] {
      var r := rs[0];
      var kb' := AfterRow(b, kb, r.head, r.colon);
      assert kb'[k] == if b[r.head..r.colon] == Names[k] then StrToU64At(b, r.colon + 1) else kb[k] by {
        if r.colon - r.head >= NameSize {
          assert |Names[k]| < NameSize;
        }
      }
      ApplySlot(b, kb', rs[1..], k);
    }
  }

  /**
   * After a refresh every slot holds the value of the last row of the
   * buffer bearing its name, and keeps the value of the previous refresh
   * when no row does.
   */
  lemma ScannedSlot(b: string, kb: seq<u64>, k: nat)
    requires |kb| == |Names| && k < |Names|
    ensures Scanned(b, kb, 0)[k] == LastValue(b, Rows(b, 0), Names[k], kb[k])
  {
    ScannedRows(b, kb, 0);
    ApplySlot(b, kb, Rows(b, 0), k);
  }

  /** Memory and swap in use, in kilobytes. */
  datatype Usage = Usage(mainUsed: u64, swapUsed: u64)

  /** The true (unbounded) main memory in use: total less free, cache (page cache and reclaimable slab) and buffers. */
  function MainUsedExact(kb: seq<u64>): int
    requires |kb| == |Names|
  {
    kb[MemTotal] as int - kb[MemFree] - (kb[Cached] as int + kb[SReclaimable]) - kb[Buffers]
  }

  /** The true swap in use: total less free less the swap cache. */
  function SwapUsedExact(kb: seq<u64>): int
    requires |kb| == |Names|
  {
    kb[SwapTotal] as int - kb[SwapFree] - kb[SwapCached]
  }

  /**
   * The figures the probe derives in `unsigned long`: each is the true
   * figure modulo 2^64, so it equals the true figure when that is not
   * negative, and reads as the true figure plus 2^64 (a huge number) when
   * it is negative by less than 2^64, as the subtractions wrap.
   */
  function Used(kb: seq<u64>): (r: Usage)
    requires |kb| == |Names|
    ensures 0 <= MainUsedExact(kb) ==> r.mainUsed == MainUsedExact(kb)
    ensures -U64 <= MainUsedExact(kb) < 0 ==> r.mainUsed == MainUsedExact(kb) + U64
    ensures 0 <= SwapUsedExact(kb) ==> r.swapUsed == SwapUsedExact(kb)
    ensures -U64 <= SwapUsedExact(kb) < 0 ==> r.swapUsed == SwapUsedExact(kb) + U64
    ensures r.mainUsed == Wrap(MainUsedExact(kb)) && r.swapUsed == Wrap(SwapUsedExact(kb))
  {
    var mainCached := Add(kb[Cached], kb[SReclaimable]);
    var swapUsed := Sub(Sub(kb[SwapTotal], kb[SwapFree]), kb[SwapCached]);
    var mainUsed := Sub(Sub(Sub(kb[MemTotal], kb[MemFree]), mainCached), kb[Buffers]);
    Usage(mainUsed, swapUsed)
  }

  class MemInfoProbe {
    /** The nine static `kb_*` slots, in table order. */
    var kb: seq<u64>

    ghost predicate Valid()
      reads this
    {
      |kb| == |Names|
    }

    /** Static storage starts zeroed. */
    constructor ()
      ensures Valid() && forall k :: 0 <= k < |Names| ==> kb[k] == 0
    {
      kb := seq(|Names|, _ => 0);
    }

    /**
     * `getmeminfo` on the bytes `raw` that reading /proc/meminfo yields:
     * the slots take the rows of the buffer in order, and the usage is
     * derived from the slots.
     */
    method GetMemInfo(raw: string) returns (r: Usage)
      requires Valid()
      modifies this
      ensures Valid()
      ensures kb == Scanned(Buffer(raw), old(kb), 0)
      ensures r == Used(kb)
    {
      var b := Buffer(raw);
      Scan(b);
      r := Used(kb);
    }

    /**
     * One row of the loop: unless the name between `head` and the colon at
     * `tail` is too long for the name buffer, it is looked up, and when
     * found its slot takes the number that follows the colon.
     */
    method StoreRow(b: string, head: nat, tail: nat)
      requires Valid() && head <= tail < |b|
      modifies this
      ensures Valid()
      ensures kb == AfterRow(b, old(kb), head, tail)
    {
      if tail - head >= NameSize {
        return;
      }
      var found := Lookup(b[head..tail]);
      RowSlot(b, kb, head, tail);
      if found.Some? {
        kb := kb[found.value := StrToU64At(b, tail + 1)];
      }
    }

    /** The row loop of `getmeminfo` over the buffer `b`. */
    method Scan(b: string)
      requires Valid()
      modifies this
      ensures Valid()
      ensures kb == Scanned(b, old(kb), 0)
    {
      var head := 0;
      ghost var goal := Scanned(b, kb, 0);
      while true
        invariant Valid() && head <= |b|
        invariant Scanned(b, kb, head) == goal
        decreases |b| - head
      {
        ghost var h0, kb0 := head, kb;
        var colon := Find(b, head, ':');
        if colon.None? {
          ScannedStop(b, kb, head);
          break;
        }
        var tail := colon.value;
        StoreRow(b, head, tail);
        var nl := Find(b, tail + 1, '\n');
        if nl.None? {
          ScannedLast(b, kb0, h0, tail, kb);
          break;
        }
        ScannedNext(b, kb0, h0, tail, nl.value, kb);
        head := nl.value + 1;
      }
    }
  }

  /** Half of a gigabyte free out of one, nothing cached and no swap: half a gigabyte in use. */
  lemma HalfUsedExample()
    ensures Used([0, 0, 524288, 1048576, 0, 0, 0, 0, 0]) == Usage(524288, 0)
  {
  }
}
