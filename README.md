# dwmstatus, modelled in Dafny

dwmstatus is a status-bar updater for the dwm window manager. Once a second
it samples a handful of host metrics and writes them into the root window's
title as one line:

- the network link and its bandwidth;
- the CPU load;
- memory and swap in use;
- the temperature;
- the battery;
- the clock.

A sample program that ships with it detects ARP spoofing by looking for
duplicate hardware addresses in the kernel's ARP table.

This project models the logic inside those probes and proves what it
computes. Each probe keeps the form it has in C. The stateful probes are
classes whose methods update the same fields the C code keeps in `static`
storage:

- `Cpu.CpuLoad` keeps the three tick snapshots;
- `MemInfo.MemInfoProbe` keeps the nine `kb_*` slots;
- `Connection.NetProbe` keeps the previous byte totals;
- `Schedule.StatusLoop` keeps the counter and the six string slots of `main`.

Each loop inside the probes is a `while` loop with its invariants:

- the `/proc/meminfo` walker and its `bsearch`;
- the `/proc/net/dev` line loop;
- the ARP table's fill loop and its pairwise search.

The straight-line probes are functions: battery, temperature, `bwstr` and
the link decision.

C's unsigned wrap-around and signed division are written out:

- `unsigned long long` and `unsigned long` wrap modulo 2^64 (`CInts.Add`, `CInts.Sub`; a 64-bit Linux is assumed);
- signed `/` and `%` truncate toward zero (`CInts.CDiv`, `CInts.CMod`);
- `strtoull` saturates;
- a `sscanf` chain stops at its first failed conversion (`CStrings.NthNumeral`, `CStrings.NthWord`).

File contents are inputs. An `Option` is `None` when the file cannot be
opened. A line-oriented file is the sequence of lines `fgets` delivers.

Behaviour worth knowing:

- A byte counter that goes down is not clamped to zero. `getbandwidth`
  subtracts in `unsigned long long`, so a counter reset shows as a huge
  rate (`Connection.DeltaRestores`).
- The rate is the byte delta divided by 1024 only. The program assumes one
  second between refreshes and does not measure the elapsed time.
- There is no volume probe, and the disk probe is commented out.

## Model

| member | source | states |
|---|---|---|
| CInts.Add | dwmstatus.c:352-353 | `unsigned long long` addition is the true sum, less 2^64 exactly when it carries out of bit 63 |
| CInts.Sub | dwmstatus.c:146-147 | `unsigned long long` subtraction is the true difference, plus 2^64 exactly when the subtrahend is larger |
| CInts.CDivMod | dwmstatus.c:547 | C's `/` and `%`: quotient and remainder recompose the dividend, the remainder is smaller than the divisor in magnitude and has the dividend's sign |
| CInts.WrapAdd | dwmstatus.c:120-121 | adding in `unsigned long long` to a reduced sum is reducing the full sum |
| CStrings.Find | dwmstatus.c:464 | `strchr`: a found position lies in the searched range and holds the character |
| CStrings.FindFirst | dwmstatus.c:480 | `strchr` finds the first occurrence: the character is absent from everything it passed over, and from the whole rest when it finds nothing |
| CStrings.OccursFrom | dwmstatus.c:111 | `strstr` succeeds exactly when the pattern stands at some position at or after the start |
| CStrings.StrCmp | dwmstatus.c:396-399 | `strcmp` is zero exactly when the strings are equal |
| CStrings.StrCmpAntisymmetric | dwmstatus.c:396-399 | `strcmp(a, b) < 0` exactly when `strcmp(b, a) > 0` |
| CStrings.StrCmpTransitive | dwmstatus.c:396-399 | the order `strcmp` induces is transitive, as `bsearch` relies on |
| CStrings.StrCmpAt | dwmstatus.c:396-399 | strings with a common prefix compare as their first differing characters do |
| CStrings.DigitsValueSlice | dwmstatus.c:478 | reading digits in place gives the number the digit string denotes |
| CStrings.DecimalRoundTrip | dwmstatus.c:478 | a number rendered in decimal reads back as itself |
| CStrings.ToU64 | dwmstatus.c:478 | `strtoull`'s result: the magnitude when it fits, `ULLONG_MAX` beyond that, the negation modulo 2^64 after a minus sign |
| CStrings.StrToU64OfDecimal | dwmstatus.c:478 | a field the kernel writes (white space, a decimal number, a non-digit) reads back as that number |
| CStrings.SkipSpacesStops | dwmstatus.c:478 | the white space `strtoull` skips ends at the first character that is not white space |
| CStrings.SkipDigitsStops | dwmstatus.c:478 | the digit run ends at the first character that is not a digit |
| CStrings.NthNumeralReached | dwmstatus.c:116-118 | a chain that reaches its n-th conversion has made every earlier one |
| CStrings.SkipWordRun | samples/dwmstatus-mitm.c:47 | the run `%s` takes holds no white space |
| CStrings.NthWordIsWord | samples/dwmstatus-mitm.c:47 | the word a `%s` conversion yields holds no white space |
| Battery.Tier | dwmstatus.c:590-599 | the tier is the first of the bounds 20, 40, 60, 85 that the percentage is below, or the top tier: every earlier bound is at most the percentage |
| Battery.PercentBounds | dwmstatus.c:580 | for a charge between empty and full the percentage lies in [0, 100] and is `100*now/full` truncated |
| Battery.Estimate | dwmstatus.c:612-613 | `hh*pow + energy%pow == energy`, `hh >= 0`, `0 <= mm < 60`, and `mm` is the whole minutes of the remaining fraction of an hour |
| Battery.EstimateBounds | dwmstatus.c:612-613 | the C quotients `energy/pow` and `(energy%pow)*60/pow` satisfy the estimate's bounds |
| Battery.MinutesBound | dwmstatus.c:613 | whole minutes of a fraction of an hour lie in [0, 60) and are truncated |
| Battery.GetBattery | dwmstatus.c:566-616 | blank exactly when a file is missing; otherwise the truncated percentage, the glyph chosen by the status word (tier while discharging), and an estimate exactly when charging or discharging with non-negative energy and positive current |
| Battery.HalfChargeExample | dwmstatus.c:566-616 | half charge, discharging at a tenth per hour, gives 50%, the third tier and 5 hours 0 minutes (printed `50%(5:0)`, minutes unpadded) |
| Temperature.GetTemperature | dwmstatus.c:539-548 | nothing when either file is missing; otherwise the millidegrees truncated toward zero to whole degrees, with the reading's sign |
| Cpu.SumWraps | dwmstatus.c:352-353 | the wrapping sum of the eight counters differs from the true sum by a multiple of 2^64, and equals it below 2^64 |
| Cpu.NumCpus | dwmstatus.c:321-327 | the processor count is the online count, or 1 when that is below 1 |
| Cpu.FrameDivides | dwmstatus.c:372-375 | the frame total is never 0, and is the delta of the totals whenever that is not 0 |
| Cpu.FrameTotal | dwmstatus.c:352-365 | the wrapping sum of the field-wise deltas is the delta of the two totals modulo 2^64 |
| Cpu.EdgeWithinDelta | dwmstatus.c:354 | the edge never exceeds the total delta it is computed from |
| Cpu.NoiseFloorNeverFires | dwmstatus.c:354-371 | the frame total is never below the edge, so the zeroing branch is dead |
| Cpu.BusyWithinTotal | dwmstatus.c:372-379 | with counters that only grew and no overflow, busy ticks `u+n+s` never exceed the frame total, so the percentage is in [0, 100] |
| Cpu.Settles | dwmstatus.c:356-371 | the frame as assembled equals the field-wise deltas with the delta of the totals, and is not below the edge |
| Cpu.TakeSnapshot | dwmstatus.c:347-354 | the new snapshot holds the eight counters read, their wrapping sum, and the edge of its growth |
| Cpu.MeasureFrame | dwmstatus.c:356-375 | the frame after the deltas, the noise-floor reset and the empty-frame rule is `Frame(prv, cur)` |
| Cpu.CpuLoad.constructor | dwmstatus.c:332-334 | the three snapshots start zeroed |
| Cpu.CpuLoad.GetCpuLoad | dwmstatus.c:329-383 | nothing changes when `getloadavg` fails; otherwise the previous snapshot becomes the old current one even when /proc/stat cannot be read; after a read, `tot` stays the wrapping sum, and the load is the busy ticks over the frame total |
| MemInfo.ChainAscends | dwmstatus.c:442-453 | neighbours in ascending order make any two entries ascend |
| MemInfo.NeighboursAscend | dwmstatus.c:442-453 | each table name is below the next by `strcmp` |
| MemInfo.FirstNeighboursAscend | dwmstatus.c:444-448 | the first five names ascend pairwise |
| MemInfo.LastNeighboursAscend | dwmstatus.c:448-452 | the last five names ascend pairwise |
| MemInfo.TableAscending | dwmstatus.c:442-453 | the table is strictly sorted by `strcmp`, as `bsearch` requires |
| MemInfo.SlotOfMeaning | dwmstatus.c:442-453 | a name has a slot exactly when it is in the table (case-sensitive), and the slot holds that name |
| MemInfo.SlotFromMeaning | dwmstatus.c:442-453 | the search from position k finds the name exactly when it stands at or after k |
| MemInfo.SlotUnique | dwmstatus.c:442-453 | a table name has exactly one slot |
| MemInfo.BelowFrom | dwmstatus.c:473-475 | a name below the middle entry is below every later entry |
| MemInfo.AboveUpTo | dwmstatus.c:473-475 | a name above the middle entry is above every earlier entry |
| MemInfo.Lookup | dwmstatus.c:473-477 | `bsearch` finds a name exactly when it is in the table, at its slot |
| MemInfo.BufferPrefix | dwmstatus.c:407-421 | the buffer is a prefix of the file, shorter than 8192 bytes, free of NUL, cut short only at a NUL or the end of the file |
| MemInfo.NextRow | dwmstatus.c:464-481 | the colon and newline found are at or after the row's start and hold those characters |
| MemInfo.ScannedStop | dwmstatus.c:464-465 | the walk ends when no colon follows |
| MemInfo.ScannedLast | dwmstatus.c:480-481 | the walk ends after a row whose colon no newline follows |
| MemInfo.ScannedNext | dwmstatus.c:479-482 | otherwise the walk goes on after the newline |
| MemInfo.RowSlot | dwmstatus.c:467-478 | a row whose name is too long for the name buffer, or not in the table, changes no slot; otherwise only its name's slot changes, to what `strtoull` reads after the colon |
| MemInfo.ScannedRows | dwmstatus.c:461-483 | the loop stores exactly the rows it visits, in order |
| MemInfo.ApplySlot | dwmstatus.c:466-478 | after stored rows a slot holds the value of the last row bearing its name, or its previous value |
| MemInfo.ScannedSlot | dwmstatus.c:442-483 | after a refresh each slot holds the value of the last row of the buffer bearing its name, and keeps its previous value when there is none |
| MemInfo.Used | dwmstatus.c:485-488 | main and swap in use are the true differences modulo 2^64: the differences themselves when not negative, plus 2^64 when negative by less than 2^64 |
| MemInfo.MemInfoProbe.constructor | dwmstatus.c:433-441 | the nine slots start at 0 |
| MemInfo.MemInfoProbe.StoreRow | dwmstatus.c:466-478 | one row of the loop updates the slots as `AfterRow` states |
| MemInfo.MemInfoProbe.Scan | dwmstatus.c:461-483 | the loop leaves the slots as `Scanned` states |
| MemInfo.MemInfoProbe.GetMemInfo | dwmstatus.c:423-497 | the slots take the buffer's rows and the usage is derived from them |
| MemInfo.HalfUsedExample | dwmstatus.c:485-488 | half a gigabyte free out of one, with nothing cached, is half a gigabyte in use |
| NetDev.DataLines | dwmstatus.c:105-109 | the loop sees every line but the first two, in order |
| NetDev.NinthAfterFirst | dwmstatus.c:116-118 | a line whose scan reaches the sent-bytes column has also read the received-bytes column |
| NetDev.ParseNetDev | dwmstatus.c:93-134 | 1 and unchanged totals when the file cannot be opened; otherwise 0 and the totals after the loop over the data lines |
| NetDev.FoldSums | dwmstatus.c:109-123 | when every line that is not loopback scans fully, the totals grow by the received and sent columns of exactly those lines, modulo 2^64 |
| NetDev.AddOn | dwmstatus.c:120-121 | one more addend keeps the totals equal to the reduced true sums |
| NetDev.HeadersIgnored | dwmstatus.c:105-107 | the two header lines never count, whatever they say |
| NetDev.LoopbackSkipped | dwmstatus.c:111-122 | a line containing `lo:` changes neither the totals nor the scan targets |
| Connection.BwStr | dwmstatus.c:219-231 | MiB/s exactly when the rate is above 1024 KiB/s, then the rate divided by 1024; KiB/s otherwise |
| Connection.MegaIffOverMiB | dwmstatus.c:146-147 | a byte delta is shown in MiB/s exactly when it exceeds 1048576 bytes |
| Connection.DeltaRestores | dwmstatus.c:146-150 | the delta brings the old total to the new one; it is the true growth when the counter grew, and the growth plus 2^64 (at least 2^64 minus the old total) when it fell |
| Connection.Decide | dwmstatus.c:245-284 | blank exactly when a state file is missing; wired exactly when the wired interface reads "up"; wireless exactly when the wired one does not and the wireless read does |
| Connection.WiredFirst | dwmstatus.c:264-275 | a wired link that is up wins whatever the wireless interface reports |
| Connection.EmptyWifiReadsWired | dwmstatus.c:245-249 | an empty wireless state file leaves the wired read in the buffer, so with the wired link down it is offline |
| Connection.NetProbe.constructor | dwmstatus.c:139 | the previous totals start at 0 |
| Connection.NetProbe.GetBandwidth | dwmstatus.c:136-155 | nothing, with totals kept, when /proc/net/dev cannot be opened; otherwise the unsigned deltas from the previous totals, which become the new totals |
| Connection.NetProbe.GetConnection | dwmstatus.c:233-305 | without a link the decision is shown and the totals stay; with a link, the link and both rates in their units; when bandwidth fails, the abort that `free` on the literal "---- KiB/s" (lines 289-290, 300-301) brings under glibc, with the totals kept |
| Schedule.AllDueAtZero | dwmstatus.c:678-705 | every interval divides 30, and every probe runs at counter 0 |
| Schedule.NextCounter | dwmstatus.c:716-723 | for an interval dividing 30, the counter reduced modulo 30 is unchanged modulo the interval, which either wraps to 0 or advances by one |
| Schedule.TicksStep | dwmstatus.c:716 | the counter is the number of iterations modulo 30 |
| Schedule.Refreshed | dwmstatus.c:699-705 | after the refreshes every slot is live, each computed `counter % interval` iterations back |
| Schedule.Advanced | dwmstatus.c:716-723 | advancing the counter and freeing the slots due restores the invariant: a slot is live exactly when its probe is not due |
| Schedule.Texts | dwmstatus.c:712-713 | the status line shows each live slot's string |
| Schedule.StatusLoop.constructor | dwmstatus.c:669-686 | counter 0, every slot unassigned, and the invariant holds |
| Schedule.StatusLoop.RefreshDue | dwmstatus.c:699-714 | due slots take their probes' outputs, every slot is live, and the status line joins them |
| Schedule.StatusLoop.ReleaseDue | dwmstatus.c:716-723 | the counter advances modulo 30 and exactly the slots due at its new value are freed |
| Schedule.StatusLoop.Step | dwmstatus.c:697-726 | no slot is read unset or freed; each shown string is less than its interval old; a slot is freed exactly when the next iteration recomputes it; the counter stays in [0, 30) |
| Arp.Entries | samples/dwmstatus-mitm.c:36-41 | every line but the first, in order |
| Arp.Macs | samples/dwmstatus-mitm.c:47 | each entry's fourth word, in order |
| Arp.DetectArpSpoofing | samples/dwmstatus-mitm.c:25-65 | NULL exactly when the table cannot be opened or an allocation fails; otherwise the alert exactly when two entries share an address other than the all-zero one |
| Arp.Collect | samples/dwmstatus-mitm.c:36-52 | the heading line is skipped, and each entry's fourth word fills the next slot in order, unless an allocation fails first |
| Arp.Search | samples/dwmstatus-mitm.c:56-64 | the alert exactly when some i < j hold the same address and it is not the all-zero one, "on" otherwise |
| Arp.Compare | samples/dwmstatus-mitm.c:57-61 | the inner loop finds a clash exactly when entry i shares its non-zero address with a later entry |
| Arp.DuplicateIffRepeated | samples/dwmstatus-mitm.c:56-64 | the alert condition holds exactly when some non-zero address occurs at least twice |
| Arp.TwoPositions | samples/dwmstatus-mitm.c:56-61 | an address at two positions occurs at least twice |
| Arp.OrderIrrelevant | samples/dwmstatus-mitm.c:56-64 | tables holding the same addresses in any order get the same verdict |
| Arp.ZerosNeverAlarm | samples/dwmstatus-mitm.c:58 | incomplete entries alone, however many, never raise the alarm |

## Left out

- The X11 output (`XOpenDisplay`, `XStoreName`, `XSync`) and `sleep(1)`: the status line is returned, not displayed, and time is not modelled.
- Floating point:
  - `bwstr`'s `%.1f`/`%.0f`, the CPU percentage and the GiB figures are not modelled.
  - The CPU probe yields the two integers of its fraction.
  - `Connection.BwStr` works on exact reals, with no `double` rounding.
- `getloadavg`, `sysconf`, `getwifistrength`, `getwifiessid`, `mktimes`: library and ioctl calls.
  - Their results are parameters: `loadAvgOk`, the online count, `strength`, and the clock's string in `outputs`.
  - Their figures are not shown.
- `smprintf` and the probes' formatted strings:
  - The schedule takes the six probe outputs as inputs.
  - Battery, temperature and connection results are datatypes, not text.
- `readvaluesfromfile`, `fopen`, `fgets`, `FILE_TO_BUF`: file contents are inputs.
  - `FILE_TO_BUF`'s `_exit` paths are not modelled.
  - `fgets`'s splitting of lines longer than its buffer is not modelled.
- Partial conversions of `readvaluesfromfile`:
  - The battery and temperature readings and the eight `/proc/stat` counters are taken as converted whenever their file opens.
  - `readvaluesfromfile` reports success even when the conversion fails. That failure would leave C locals uninitialised or counters half-updated.
- `getconnection` reads the state word into a 5-byte `status` buffer. A word of five or more characters overflows it, which is not modelled.
- `Battery.GetBattery` requires a non-zero full-charge reading, because the source divides by it.
- Battery.GetBattery: the signed `long` products and differences `100*battnow`, `battfull - battnow` and `(energy % pow) * 60` are computed on unbounded integers; their overflow in C (undefined behaviour for readings above `LONG_MAX/100` or `LONG_MAX/60`) is not modelled.
- Connection.NetProbe.GetConnection: when /proc/net/dev cannot be read, the source passes the string literals it assigned to `downstr` and `upstr` to `free`. That is undefined behaviour. The model returns `FreedLiteral`, standing for glibc's usual abort, and does not model any other outcome.
- `NetDev.ParseNetDev` requires every data line to carry a colon, because the source dereferences `strstr`'s null result otherwise.
- `Arp.DetectArpSpoofing` requires at most 1023 entries and a fourth word shorter than 18 characters on every entry line.
  - The source checks neither the array's bounds nor the 18-byte blocks.
  - A line with fewer than four words leaves its block uninitialised.
- `Arp.DetectArpSpoofing`: the blocks it allocates are never freed, and the file is not closed on allocation failure. Memory and file handles are not modelled.
- `Schedule.StatusLoop.Step` keeps no record of the status string being freed, because the string is not stored anywhere.
- The commented-out disk and time-zone code is not live.
