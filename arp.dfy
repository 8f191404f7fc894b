/**
 * The ARP spoofing detector (`detect_arp_spoofing`). It reads the kernel's
 * ARP table, /proc/net/arp, collects the hardware address (the fourth
 * column) of every entry into a fixed array of pointers ended by a null
 * pointer, and then compares the addresses pairwise: one address held by
 * two entries, other than the all-zero address of an incomplete entry,
 * means some host answers for another's IP address, and the detector
 * raises the alarm.
 *
 * The file is given as the lines `fgets` delivers; allocation failure is
 * an input (`allocFails`: the entry whose 18-byte `malloc` returns null).
 */
module Arp {
  import opened Wrappers
  import opened CStrings

  /** `MAX_ARP_CACHE_ENTRIES`: the slots of the `mac` array, the terminator included. */
  const MaxArpCacheEntries := 1024
  /** The bytes `malloc`ed for each address, its terminator included. */
  const MacSize := 18
  /** The address of an incomplete entry, never taken as evidence. */
  const ZeroMac := "00:00:00:00:00:00"

  /** An element of `mac`: the terminating null pointer, or an allocated address string. */
  datatype Entry = End | Mac(text: string)

  /** `NULL` (an error), the alert, or "MITM detection: on". */
  datatype Verdict = Failed | Attack | On

  /** `sscanf(buf, "%*s %*s %*s %s", ...)`: the fourth word of a line. */
  function FourthWord(line: string): Option<string>
  {
    NthWord(line, 0, 3)
  }

  /**
   * An entry line the C code can scan safely: it has a fourth word (or the
   * `malloc`ed block would be read uninitialised) that fits the 18-byte
   * block with its terminator.
   */
  predicate Scannable(line: string)
  {
    FourthWord(line).Some? && |FourthWord(line).value| < MacSize
  }

  /** The entry lines: all but the first (the column headings). */
  function Entries(lines: seq<string>): (es: seq<string>)
    ensures |lines| == 0 ==> es == []
    ensures 0 < |lines| ==> |es| == |lines| - 1 && forall k :: 0 <= k < |es| ==> es[k] == lines[k + 1]
  {
    if lines == [] then [] else lines[1..]
  }

  predicate AllScannable(es: seq<string>)
  {
    forall k :: 0 <= k < |es| ==> Scannable(es[k])
  }

  /** The addresses of the entries, in file order. */
  function Macs(es: seq<string>): (ms: seq<string>)
    requires AllScannable(es)
    ensures |ms| == |es| && forall k :: 0 <= k < |es| ==> ms[k] == FourthWord(es[k]).value
  {
    seq(|es|, k requires 0 <= k < |es| && AllScannable(es) => FourthWord(es[k]).value)
  }

  /** Entries `a` and `b` share an address that is not the all-zero one. */
  predicate Clash(ms: seq<string>, a: int, b: int)
    requires 0 <= a < |ms| && 0 <= b < |ms|
  {
    ms[a] != ZeroMac && ms[a] == ms[b]
  }

  /** Some two entries share an address that is not the all-zero one. */
  predicate HasDuplicate(ms: seq<string>)
  {
    exists a, b :: 0 <= a < b < |ms| && Clash(ms, a, b)
  }

  /**
   * `detect_arp_spoofing`. It fails when the table cannot be opened or an
   * allocation fails; otherwise it raises the alarm exactly when two
   * entries share an address other than the all-zero one. The C code
   * never checks the array's bounds, so the table may hold at most 1023
   * entries.
   */
  method DetectArpSpoofing(file: Option<seq<string>>, allocFails: Option<nat>) returns (v: Verdict)
    requires file.Some? ==> |Entries(file.value)| < MaxArpCacheEntries
    requires file.Some? ==> AllScannable(Entries(file.value))
    ensures v == Failed <==> file.None? || (allocFails.Some? && allocFails.value < |Entries(file.value)|)
    ensures v != Failed ==> (v == Attack <==> HasDuplicate(Macs(Entries(file.value))))
  {
    if file.None? {
      return Failed;
    }
    var mac := new Entry[MaxArpCacheEntries](_ => End);
    var ok, ptr := Collect(file.value, allocFails, mac);
    if !ok {
      return Failed;
    }
    ghost var ms := Macs(Entries(file.value));
    mac[ptr] := End;
    v := Search(mac, ms);
  }

  /**
   * The read loop: the heading line is skipped, and the address of each
   * entry line is stored in a freshly allocated block at the next slot of
   * `mac`, until the file ends or an allocation fails.
   */
  method Collect(lines: seq<string>, allocFails: Option<nat>, mac: array<Entry>) returns (ok: bool, ptr: nat)
    requires mac.Length == MaxArpCacheEntries
    requires |Entries(lines)| < MaxArpCacheEntries && AllScannable(Entries(lines))
    modifies mac
    ensures ok <==> allocFails.None? || |Entries(lines)| <= allocFails.value
    ensures ok ==> ptr == |Entries(lines)|
    ensures ok ==> forall k :: 0 <= k < ptr ==> mac[k] == Mac(FourthWord(Entries(lines)[k]).value)
  {
    ghost var es := Entries(lines);
    var first := true;
    ptr := 0;
    var n := 0;
    while n < |lines|
      invariant n <= |lines|
      invariant first <==> n == 0
      invariant !first ==> ptr == n - 1
      invariant first ==> ptr == 0
      invariant allocFails.None? || ptr <= allocFails.value
      invariant forall k :: 0 <= k < ptr ==> mac[k] == Mac(FourthWord(es[k]).value)
    {
      if first {
        first := false;
        n := n + 1;
        continue;
      }
      if allocFails.Some? && allocFails.value == ptr {
        return false, ptr;
      }
      assert lines[n] == es[ptr];
      mac[ptr] := Mac(FourthWord(lines[n]).value);
      ptr := ptr + 1;
      n := n + 1;
    }
    ok := true;
  }

  /**
   * The pairwise search over the terminated array: each entry is compared
   * with every later one, and the first clash stops the search.
   */
  method Search(mac: array<Entry>, ghost ms: seq<string>) returns (v: Verdict)
    requires |ms| < mac.Length
    requires forall k :: 0 <= k < |ms| ==> mac[k] == Mac(ms[k])
    requires mac[|ms|] == End
    ensures v == Attack <==> HasDuplicate(ms)
    ensures v == Attack || v == On
  {
    var i := 0;
    while mac[i] != End
      invariant 0 <= i <= |ms|
      invariant forall a, b :: 0 <= a < i && a < b < |ms| ==> !Clash(ms, a, b)
      decreases |ms| - i
    {
      var found := Compare(mac, ms, i);
      if found {
        return Attack;
      }
      i := i + 1;
    }
    return On;
  }

  /**
   * The inner loop for entry `i`: it finds a later entry with the same
   * address exactly when entry `i` clashes with one.
   */
  method Compare(mac: array<Entry>, ghost ms: seq<string>, i: nat) returns (found: bool)
    requires i < |ms| < mac.Length
    requires forall k :: 0 <= k < |ms| ==> mac[k] == Mac(ms[k])
    requires mac[|ms|] == End
    ensures found <==> exists b :: i < b < |ms| && Clash(ms, i, b)
  {
    var j := i + 1;
    while mac[j] != End
      invariant i < j <= |ms|
      invariant forall b :: i < b < j ==> !Clash(ms, i, b)
      decreases |ms| - j
    {
      if StrCmp(ZeroMac, mac[i].text) != 0 && StrCmp(mac[i].text, mac[j].text) == 0 {
        assert Clash(ms, i, j);
        return true;
      }
      j := j + 1;
    }
    return false;
  }

  /** The number of entries holding the address `m`. */
  function Count(ms: seq<string>, m: string): nat
  {
    multiset(ms)[m]
  }

  /**
   * The alarm depends only on how many entries hold each address: it is
   * raised exactly when some address other than the all-zero one is held
   * by at least two entries. So the order of the table never matters.
   */
  lemma {:induction false} DuplicateIffRepeated(ms: seq<string>)
    ensures HasDuplicate(ms) <==> exists m :: m != ZeroMac && Count(ms, m) >= 2
    decreases |ms|
  {
    if HasDuplicate(ms) {
      var a, b :| 0 <= a < b < |ms| && Clash(ms, a, b);
      TwoPositions(ms, a, b);
    }
    if ms != [] {
      var rest := ms[1..];
      assert ms == [ms[0]] + rest;
      DuplicateIffRepeated(rest);
      if m :| m != ZeroMac && Count(ms, m) >= 2 {
        if ms[0] == m {
          assert Count(rest, m) >= 1;
          var b :| 0 <= b < |rest| && rest[b] == m;
          assert Clash(ms, 0, b + 1);
        } else {
          assert Count(rest, m) >= 2;
          var a, b :| 0 <= a < b < |rest| && Clash(rest, a, b);
          assert Clash(ms, a + 1, b + 1);
        }
      }
    }
  }

  /** Two distinct positions holding `ms[a]` make it occur at least twice. */
  lemma TwoPositions(ms: seq<string>, a: nat, b: nat)
    requires a < b < |ms| && ms[a] == ms[b]
    ensures Count(ms, ms[a]) >= 2
  {
    assert ms == ms[..a] + [ms[a]] + ms[a + 1..b] + [ms[b]] + ms[b + 1..];
  }

  /** Two tables holding the same addresses, in whatever order, get the same verdict. */
  lemma OrderIrrelevant(ms: seq<string>, ns: seq<string>)
    requires multiset(ms) == multiset(ns)
    ensures HasDuplicate(ms) <==> HasDuplicate(ns)
  {
    DuplicateIffRepeated(ms);
    DuplicateIffRepeated(ns);
    if HasDuplicate(ms) {
      var m :| m != ZeroMac && Count(ms, m) >= 2;
      assert Count(ns, m) >= 2;
    }
    if HasDuplicate(ns) {
      var m :| m != ZeroMac && Count(ns, m) >= 2;
      assert Count(ms, m) >= 2;
    }
  }

  /** Incomplete entries alone never raise the alarm, however many there are. */
  lemma ZerosNeverAlarm(ms: seq<string>)
    requires forall k :: 0 <= k < |ms| ==> ms[k] == ZeroMac
    ensures !HasDuplicate(ms)
  {
  }
}
