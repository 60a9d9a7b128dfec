/**
 * Segment file names `sst-{n}.json`: how the server formats them
 * (fmt.Sprintf / fmt.Fprintf with "sst-%d.json"), how recovery reads the
 * number back (fmt.Sscanf with the same format), and the manifest that a
 * well-behaved store holds after a given number of flushes.
 */
module SstNames {
  import opened Failures

  /** The range of Go's `int` on a 64-bit platform, which Sscanf checks. */
  const Int64Min: int := -0x8000_0000_0000_0000
  const Int64Max: int := 0x7fff_ffff_ffff_ffff

  predicate InInt64(n: int) {
    Int64Min <= n <= Int64Max
  }

  predicate IsDigit(c: char) {
    '0' <= c <= '9'
  }

  predicate AllDigits(s: string) {
    forall i :: 0 <= i < |s| ==> IsDigit(s[i])
  }

  function DigitChar(d: nat): (c: char)
    requires d < 10
    ensures IsDigit(c)
  {
    (d + '0' as int) as char
  }

  function DigitValue(c: char): (d: nat)
    requires IsDigit(c)
  {
    c as int - '0' as int
  }

  /** The decimal digits of `n`, most significant first, without leading zeros. */
  function NatToDecimal(n: nat): (s: string)
    ensures |s| > 0 && AllDigits(s)
    decreases n
  {
    if n < 10 then [DigitChar(n)] else NatToDecimal(n / 10) + [DigitChar(n % 10)]
  }

  /** The `%d` verb: a minus sign for negative numbers, then the digits. */
  function IntToDecimal(n: int): (s: string) {
    if n < 0 then "-" + NatToDecimal(-n) else NatToDecimal(n)
  }

  /** fmt.Sprintf("sst-%d.json", n) */
  function SstName(n: int): (name: string) {
    "sst-" + IntToDecimal(n) + ".json"
  }

  /** The value of a string of decimal digits. */
  function DecimalValue(ds: string): (n: nat)
    requires AllDigits(ds)
    decreases |ds|
  {
    if ds == [] then 0 else DecimalValue(ds[..|ds| - 1]) * 10 + DigitValue(ds[|ds| - 1])
  }

  lemma {:induction false} DecimalRoundTrip(n: nat)
    ensures DecimalValue(NatToDecimal(n)) == n
    decreases n
  {
    if n >= 10 {
      DecimalRoundTrip(n / 10);
      var s := NatToDecimal(n);
      assert s[..|s| - 1] == NatToDecimal(n / 10);
    }
  }

  /** The longest prefix of `s` made of decimal digits. */
  function LeadingDigits(s: string): (d: string)
    ensures AllDigits(d)
    decreases |s|
  {
    if s == [] || !IsDigit(s[0]) then [] else [s[0]] + LeadingDigits(s[1..])
  }

  lemma {:induction false} LeadingDigitsOf(d: string, t: string)
    requires AllDigits(d)
    requires t == [] || !IsDigit(t[0])
    ensures LeadingDigits(d + t) == d
    decreases |d|
  {
    if d != [] {
      assert (d + t)[1..] == d[1..] + t;
      LeadingDigitsOf(d[1..], t);
    } else {
      assert d + t == t;
    }
  }

  /** The white space that Go's fmt scanner skips before a number (its `space` table). */
  predicate IsScanSpace(c: char) {
    var x := c as int;
    || 0x09 <= x <= 0x0d || x == 0x20 || x == 0x85 || x == 0xa0 || x == 0x1680
    || 0x2000 <= x <= 0x200a || x == 0x2028 || x == 0x2029 || x == 0x202f
    || x == 0x205f || x == 0x3000
  }

  /**
   * The scanner's SkipSpace for Sscanf: leading white space is dropped,
   * and a newline is an error ("unexpected newline"), here None.
   */
  function SkipSpace(s: string): (r: Option<string>)
    decreases |s|
  {
    if s == [] then Some(s)
    else if s[0] == '\n' then None
    else if IsScanSpace(s[0]) then SkipSpace(s[1..])
    else Some(s)
  }

  /**
   * The `%d` verb of the scanner on `s`: Some(v) when it scans the number
   * `v`, None when it fails. Leading white space is skipped; then come an
   * optional sign and at least one decimal digit, and the value must fit
   * in a 64-bit int. Whatever follows the digits is left unread.
   */
  function ScanInt(s: string): (r: Option<int>) {
    match SkipSpace(s)
    case None => None
    case Some(t) =>
      var signed := |t| > 0 && (t[0] == '-' || t[0] == '+');
      var u := if signed then t[1..] else t;
      var d := LeadingDigits(u);
      var v: int := if signed && t[0] == '-' then 0 - DecimalValue(d) else DecimalValue(d);
      if d == [] || !InInt64(v) then None else Some(v)
  }

  /**
   * fmt.Sscanf(line, "sst-%d.json", &n): Some(v) when the scan stores `v`
   * into `n`, None when it fails before storing and `n` keeps its value.
   * The literal "sst-" must match exactly. The value is stored as soon as
   * the number is scanned, so what follows it (".json" or anything else)
   * does not matter.
   */
  function ScanSstNumber(line: string): (r: Option<int>) {
    if |line| < 4 || line[..4] != "sst-" then None else ScanInt(line[4..])
  }

  /** `%d` scanning reads back what `%d` formatting wrote, up to the non-digit that follows. */
  lemma ScanIntOfDecimal(n: int)
    requires InInt64(n)
    ensures ScanInt(IntToDecimal(n) + ".json") == Some(n)
  {
    var rest := IntToDecimal(n) + ".json";
    var d := NatToDecimal(if n < 0 then -n else n);
    assert rest[0] == '-' || IsDigit(rest[0]);
    assert SkipSpace(rest) == Some(rest);
    if n < 0 {
      assert rest[1..] == d + ".json";
    } else {
      assert rest == d + ".json";
    }
    LeadingDigitsOf(d, ".json");
    DecimalRoundTrip(if n < 0 then -n else n);
  }

  /** Scanning a formatted name gives back the number it was formatted from. */
  lemma ScanSstName(n: int)
    requires InInt64(n)
    ensures ScanSstNumber(SstName(n)) == Some(n)
  {
    var line := SstName(n);
    assert line == "sst-" + (IntToDecimal(n) + ".json");
    assert line[..4] == "sst-";
    assert line[4..] == IntToDecimal(n) + ".json";
    ScanIntOfDecimal(n);
  }

  /** Different numbers give different segment names, for every integer. */
  lemma SstNameInjective(a: int, b: int)
    requires SstName(a) == SstName(b)
    ensures a == b
  {
    var da, db := IntToDecimal(a), IntToDecimal(b);
    assert SstName(a) == "sst-" + da + ".json";
    assert da == SstName(a)[4..|SstName(a)| - 5];
    assert db == SstName(b)[4..|SstName(b)| - 5];
    var na, nb := NatToDecimal(if a < 0 then -a else a), NatToDecimal(if b < 0 then -b else b);
    assert a < 0 <==> da[0] == '-';
    assert b < 0 <==> db[0] == '-';
    if a < 0 {
      assert na == da[1..] && nb == db[1..];
    } else {
      assert na == da && nb == db;
    }
    DecimalRoundTrip(if a < 0 then -a else a);
    DecimalRoundTrip(if b < 0 then -b else b);
  }

  /**
   * The manifest of a store whose next segment number is `next`: the
   * names of segments 1 .. next-1, which have been written, followed by
   * the reservation `sst-{next}.json`.
   */
  function ManifestFor(next: int): (lines: seq<string>)
    requires next >= 1
  {
    seq(next, i requires 0 <= i < next => SstName(i + 1))
  }

  /** A flush appends exactly the next reservation to the manifest. */
  lemma ManifestGrows(next: int)
    requires next >= 1
    ensures ManifestFor(next) + [SstName(next + 1)] == ManifestFor(next + 1)
  {
  }

  /** All lines of ManifestFor name different segments. */
  lemma ManifestNamesDistinct(next: int, i: int, j: int)
    requires next >= 1 && 0 <= i < j < next
    ensures ManifestFor(next)[i] != ManifestFor(next)[j]
  {
    if ManifestFor(next)[i] == ManifestFor(next)[j] {
      SstNameInjective(i + 1, j + 1);
    }
  }

  /** The manifest written at fresh initialisation is ManifestFor(1). */
  lemma FreshManifest()
    ensures ManifestFor(1) == ["sst-1.json"]
  {
    assert DigitChar(1) == '1';
    assert IntToDecimal(1) == "1";
    assert SstName(1) == "sst-1.json";
    assert ManifestFor(1)[0] == SstName(1);
  }
}
