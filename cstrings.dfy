/**
 * The C library string operations the probes rely on, over text that has
 * already been read: `strchr`, `strstr`, `strcmp`, `strtoull` and the
 * `%s`, `%d` and `%llu` conversions of `sscanf`. Text is a `string`; the
 * files read are ASCII, where a character is a byte.
 */
module CStrings {
  import opened Wrappers
  import opened CInts

  /** `isspace` in the C locale. */
  predicate IsSpace(c: char)
  {
    c == ' ' || c == '\t' || c == '\n' || c == '\r' || c == '\U{000B}' || c == '\U{000C}'
  }

  predicate IsDigit(c: char)
  {
    '0' <= c <= '9'
  }

  predicate AllDigits(s: string)
  {
    forall k :: 0 <= k < |s| ==> IsDigit(s[k])
  }

  predicate AllSpaces(s: string)
  {
    forall k :: 0 <= k < |s| ==> IsSpace(s[k])
  }

  /** `strchr(s + from, c)`: the first position of `c` at or after `from`. */
  function Find(s: string, from: nat, c: char): (r: Option<nat>)
    requires from <= |s|
    ensures r.Some? ==> from <= r.value < |s| && s[r.value] == c
    decreases |s| - from
  {
    if from == |s| then None
    else if s[from] == c then Some(from)
    else Find(s, from + 1, c)
  }

  /** `strchr` stops at the first occurrence: `c` is not among the characters it passes over. */
  lemma {:induction false} FindFirst(s: string, from: nat, c: char)
    requires from <= |s|
    ensures Find(s, from, c).Some? ==> c !in s[from..Find(s, from, c).value]
    ensures Find(s, from, c).None? ==> c !in s[from..]
    decreases |s| - from
  {
    if from < |s| && s[from] != c {
      FindFirst(s, from + 1, c);
      var r := Find(s, from + 1, c);
      assert r.Some? ==> s[from..r.value] == [s[from]] + s[from + 1..r.value];
      assert s[from..] == [s[from]] + s[from + 1..];
    }
  }

  /** `p` stands in `s` at position `i`. */
  predicate At(s: string, p: string, i: nat)
  {
    i + |p| <= |s| && s[i..i + |p|] == p
  }

  /** `strstr(s + from, p) != NULL`: `p` occurs in `s` at or after `from`. */
  function OccursFrom(s: string, p: string, from: nat): (r: bool)
    requires from <= |s|
    ensures r <==> exists i :: from <= i && At(s, p, i)
    decreases |s| - from
  {
    if |s| < from + |p| then false
    else if At(s, p, from) then true
    else if from == |s| then false
    else OccursFrom(s, p, from + 1)
  }

  /**
   * `strcmp`. Only the sign is meaningful: characters compare by code,
   * which for ASCII text is C's comparison of unsigned bytes, and a proper
   * prefix sorts first.
   */
  function StrCmp(a: string, b: string): (c: int)
    ensures c == 0 <==> a == b
    decreases |a|
  {
    if a == [] && b == [] then 0
    else if a == [] then -1
    else if b == [] then 1
    else if a[0] != b[0] then a[0] as int - b[0] as int
    else
      var c := StrCmp(a[1..], b[1..]);
      assert a == [a[0]] + a[1..] && b == [b[0]] + b[1..];
      c
  }

  lemma {:induction false} StrCmpAntisymmetric(a: string, b: string)
    ensures StrCmp(a, b) < 0 <==> StrCmp(b, a) > 0
    decreases |a|
  {
    if a != [] && b != [] && a[0] == b[0] {
      StrCmpAntisymmetric(a[1..], b[1..]);
    }
  }

  lemma {:induction false} StrCmpTransitive(a: string, b: string, c: string)
    requires StrCmp(a, b) < 0 && StrCmp(b, c) < 0
    ensures StrCmp(a, c) < 0
    decreases |a|
  {
    if a != [] && b != [] && c != [] && a[0] == b[0] && b[0] == c[0] {
      StrCmpTransitive(a[1..], b[1..], c[1..]);
    }
  }

  /** Two strings that agree before position `k` and differ at `k` compare as their characters at `k` do. */
  lemma {:induction false} StrCmpAt(a: string, b: string, k: nat)
    requires k < |a| && k < |b| && a[..k] == b[..k] && a[k] < b[k]
    ensures StrCmp(a, b) < 0
    decreases k
  {
    if k > 0 {
      assert a[0] == a[..k][0] == b[..k][0] == b[0];
      assert a[1..][..k - 1] == a[..k][1..];
      assert b[1..][..k - 1] == b[..k][1..];
      StrCmpAt(a[1..], b[1..], k - 1);
    }
  }

  /** The end of the run of characters satisfying `IsSpace` that starts at `i`. */
  function SkipSpaces(s: string, i: nat): (j: nat)
    requires i <= |s|
    ensures i <= j <= |s| && (j < |s| ==> !IsSpace(s[j]))
    decreases |s| - i
  {
    if i < |s| && IsSpace(s[i]) then SkipSpaces(s, i + 1) else i
  }

  function SkipDigits(s: string, i: nat): (j: nat)
    requires i <= |s|
    ensures i <= j <= |s| && (j < |s| ==> !IsDigit(s[j]))
    decreases |s| - i
  {
    if i < |s| && IsDigit(s[i]) then SkipDigits(s, i + 1) else i
  }

  function SkipWord(s: string, i: nat): (j: nat)
    requires i <= |s|
    ensures i <= j <= |s| && (j < |s| ==> IsSpace(s[j]))
    decreases |s| - i
  {
    if i < |s| && !IsSpace(s[i]) then SkipWord(s, i + 1) else i
  }

  /** The word run from `i` holds no white space. */
  lemma {:induction false} SkipWordRun(s: string, i: nat)
    requires i <= |s|
    ensures forall k :: i <= k < SkipWord(s, i) ==> !IsSpace(s[k])
    decreases |s| - i
  {
    if i < |s| && !IsSpace(s[i]) {
      SkipWordRun(s, i + 1);
    }
  }

  /** The value of a digit character (0 for any other character). */
  function DigitValue(c: char): nat
  {
    if IsDigit(c) then c as int - '0' as int else 0
  }

  /** The number a string of decimal digits denotes. */
  function DecimalValue(d: string): nat
  {
    if d == [] then 0 else 10 * DecimalValue(d[..|d| - 1]) + DigitValue(d[|d| - 1])
  }

  /** The number the digits `s[k..e]` denote, read in place. */
  function DigitsValue(s: string, k: nat, e: nat): nat
    requires k <= e <= |s|
    decreases e
  {
    if e == k then 0 else 10 * DigitsValue(s, k, e - 1) + DigitValue(s[e - 1])
  }

  /** Reading the digits in place is reading the string they form. */
  lemma {:induction false} DigitsValueSlice(s: string, k: nat, e: nat)
    requires k <= e <= |s|
    ensures DigitsValue(s, k, e) == DecimalValue(s[k..e])
    decreases e
  {
    if e > k {
      DigitsValueSlice(s, k, e - 1);
      assert s[k..e][..e - k - 1] == s[k..e - 1];
    }
  }

  /** The digit character for `d`. */
  function Digit(d: nat): (c: char)
    requires d < 10
    ensures IsDigit(c) && DigitValue(c) == d
  {
    ('0' as int + d) as char
  }

  /** The decimal rendering of `n`, without leading zeros (as `%lu` prints it). */
  function Decimal(n: nat): (s: string)
    ensures |s| >= 1 && AllDigits(s)
  {
    if n < 10 then [Digit(n)] else Decimal(n / 10) + [Digit(n % 10)]
  }

  /** Reading a rendered number back gives the number. */
  lemma {:induction false} DecimalRoundTrip(n: nat)
    ensures DecimalValue(Decimal(n)) == n
  {
    if n >= 10 {
      DecimalRoundTrip(n / 10);
      var s := Decimal(n);
      assert s[..|s| - 1] == Decimal(n / 10);
    }
  }

  /** A decimal number as `strtoull` and the numeric `sscanf` conversions read it. */
  datatype Numeral = Numeral(negative: bool, magnitude: nat, end: nat)

  /**
   * Skip white space, an optional sign and a non-empty run of digits from
   * `i`; `None` when there is no digit (a matching failure for `sscanf`,
   * "no conversion" for `strtoull`).
   */
  function ScanNumeral(s: string, i: nat): (r: Option<Numeral>)
    requires i <= |s|
    ensures r.Some? ==> i < r.value.end <= |s|
  {
    var j := SkipSpaces(s, i);
    var k := if j < |s| && (s[j] == '-' || s[j] == '+') then j + 1 else j;
    var e := SkipDigits(s, k);
    if e == k then None
    else Some(Numeral(j < |s| && s[j] == '-', DigitsValue(s, k, e), e))
  }

  /**
   * The `unsigned long long` a scanned numeral becomes: a magnitude beyond
   * `ULLONG_MAX` saturates, a minus sign negates modulo 2^64.
   */
  function ToU64(n: Numeral): (r: u64)
    ensures n.magnitude > U64Max ==> r == U64Max
    ensures n.magnitude <= U64Max && !n.negative ==> r == n.magnitude
    ensures n.magnitude <= U64Max && n.negative ==> r == Sub(0, n.magnitude)
  {
    if n.magnitude > U64Max then U64Max
    else if n.negative then Sub(0, n.magnitude)
    else n.magnitude
  }

  /** `strtoull(s + i, &end, 10)`: 0 when no digits follow the white space and sign. */
  function StrToU64At(s: string, i: nat): u64
    requires i <= |s|
  {
    match ScanNumeral(s, i)
    case None => 0
    case Some(n) => ToU64(n)
  }

  /** `strtoull(s, &end, 10)`. */
  function StrToU64(s: string): u64
  {
    StrToU64At(s, 0)
  }

  /**
   * A field as the kernel writes it -- white space, a decimal number, then
   * anything that does not start with a digit -- reads back as that number.
   */
  lemma StrToU64OfDecimal(pad: string, n: nat, rest: string)
    requires AllSpaces(pad) && n <= U64Max
    requires rest == [] || !IsDigit(rest[0])
    ensures StrToU64(pad + Decimal(n) + rest) == n
  {
    var d := Decimal(n);
    var s := pad + d + rest;
    assert s[0..|pad|] == pad && s[|pad|..|pad| + |d|] == d;
    SkipSpacesStops(s, 0, |pad|);
    SkipDigitsStops(s, |pad|, |pad| + |d|);
    DigitsValueSlice(s, |pad|, |pad| + |d|);
    DecimalRoundTrip(n);
  }

  /** The white-space run from `i` ends at the first character that is not white space. */
  lemma {:induction false} SkipSpacesStops(s: string, i: nat, m: nat)
    requires i <= m <= |s| && AllSpaces(s[i..m]) && (m < |s| ==> !IsSpace(s[m]))
    ensures SkipSpaces(s, i) == m
    decreases m - i
  {
    if i < m {
      assert s[i] == s[i..m][0];
      assert s[i + 1..m] == s[i..m][1..];
      SkipSpacesStops(s, i + 1, m);
    }
  }

  /** The digit run from `i` ends at the first character that is not a digit. */
  lemma {:induction false} SkipDigitsStops(s: string, i: nat, m: nat)
    requires i <= m <= |s| && AllDigits(s[i..m]) && (m < |s| ==> !IsDigit(s[m]))
    ensures SkipDigits(s, i) == m
    decreases m - i
  {
    if i < m {
      assert s[i] == s[i..m][0];
      assert s[i + 1..m] == s[i..m][1..];
      SkipDigitsStops(s, i + 1, m);
    }
  }

  /**
   * The numeral the `n`-th numeric conversion (`%llu`, `%d`, counting from
   * 0) of a `sscanf` chain starting at `i` reads; `None` when the chain
   * stops at a matching failure before or at it, as `sscanf` stops at the
   * first one.
   */
  function NthNumeral(s: string, i: nat, n: nat): (r: Option<Numeral>)
    requires i <= |s|
    ensures r.Some? ==> i < r.value.end <= |s|
    decreases n
  {
    match ScanNumeral(s, i)
    case None => None
    case Some(x) => if n == 0 then Some(x) else NthNumeral(s, x.end, n - 1)
  }

  /** A chain that reaches its `n`-th conversion has passed every earlier one. */
  lemma {:induction false} NthNumeralReached(s: string, i: nat, m: nat, n: nat)
    requires i <= |s| && m <= n && NthNumeral(s, i, n).Some?
    ensures NthNumeral(s, i, m).Some?
    decreases n
  {
    if m > 0 {
      var x := ScanNumeral(s, i).value;
      NthNumeralReached(s, x.end, m - 1, n - 1);
    }
  }

  /**
   * The word the `n`-th `%s` conversion (counting from 0) of a `sscanf`
   * chain starting at `i` reads: it skips white space and takes the
   * longest run of other characters; `None` when the input ends first.
   */
  function NthWord(s: string, i: nat, n: nat): (r: Option<string>)
    requires i <= |s|
    ensures r.Some? ==> r.value != []
    decreases n
  {
    var j := SkipSpaces(s, i);
    if j == |s| then None
    else
      var e := SkipWord(s, j);
      if n == 0 then Some(s[j..e]) else NthWord(s, e, n - 1)
  }

  /** A word `%s` converts is a non-empty run without white space. */
  lemma {:induction false} NthWordIsWord(s: string, i: nat, n: nat)
    requires i <= |s|
    ensures NthWord(s, i, n).Some? ==> forall k :: 0 <= k < |NthWord(s, i, n).value| ==> !IsSpace(NthWord(s, i, n).value[k])
    decreases n
  {
    var j := SkipSpaces(s, i);
    if j < |s| {
      SkipWordRun(s, j);
      if n > 0 {
        NthWordIsWord(s, SkipWord(s, j), n - 1);
      }
    }
  }
}
