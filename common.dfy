/** The data model shared by the collector, the agent and the metadata
    service: one tracked file, a baseline of them, the error type, and the
    human-readable renderings of both records. */
module IntegrityCommon {

  /** Rust's u32, the type of mode, uid and gid. */
  type u32 = x: int | 0 <= x < 0x1_0000_0000

  datatype Option<+T> = None | Some(value: T)

  /** The error cases of the shared error enum; the payload is the message. */
  datatype IntegrityError =
    | Io(message: string)
    | Serde(message: string)
    | Walkdir(message: string)
    | BaselineNotFound(message: string)
    | Storage(message: string)

  datatype Result<+T> = Ok(value: T) | Err(error: IntegrityError)

  /** One tracked file. Equality is Dafny's structural equality, which is the
      field-wise equality the record derives. */
  datatype FileIntegrityEntry = FileIntegrityEntry(
    path: string,
    sha512: string,
    mode: u32,
    uid: u32,
    gid: u32)

  /** The snapshot of one image: an ordered list, with no uniqueness check on paths. */
  datatype Baseline = Baseline(
    imageId: string,
    timestamp: string,
    entries: seq<FileIntegrityEntry>)

  // ---------------------------------------------------------------------
  // Numerals, as the `{}` and `{:o}` format specifiers render an integer
  // ---------------------------------------------------------------------

  function DigitChar(d: nat): char
    requires d < 10
  {
    ('0' as int + d) as char
  }

  predicate IsDigit(c: char, base: nat) {
    '0' <= c && (c as int) < '0' as int + base
  }

  function DigitValue(c: char): int {
    c as int - '0' as int
  }

  /** A well-formed numeral: digits of the base and no leading zero. */
  predicate IsNumeral(s: string, base: nat) {
    && |s| >= 1
    && (forall i :: 0 <= i < |s| ==> IsDigit(s[i], base))
    && (|s| > 1 ==> s[0] != '0')
  }

  /** The digits of `n` in `base`, most significant first; zero is "0". */
  function Numeral(n: nat, base: nat): (s: string)
    requires 2 <= base <= 10
    ensures IsNumeral(s, base)
    ensures |s| == 1 <==> n < base
    decreases n
  {
    if n < base then [DigitChar(n)]
    else
      DivMod(n, base, n / base, n % base);
      Numeral(n / base, base) + [DigitChar(n % base)]
  }

  /** Reads a numeral back; the partner of Numeral. */
  function ParseNumeral(s: string, base: nat): int
  {
    if s == [] then 0
    else ParseNumeral(s[..|s| - 1], base) * base + DigitValue(s[|s| - 1])
  }

  lemma DigitRoundTrip(d: nat)
    requires d < 10
    ensures DigitValue(DigitChar(d)) == d
  {
  }

  lemma ParseSnoc(t: string, c: char, base: nat)
    ensures ParseNumeral(t + [c], base) == ParseNumeral(t, base) * base + DigitValue(c)
  {
    assert (t + [c])[..|t|] == t;
  }

  lemma DivMod(n: nat, base: nat, q: int, r: int)
    requires base >= 2 && q == n / base && r == n % base
    ensures q * base + r == n
    ensures 0 <= r < base
    ensures n >= base ==> 0 < q < n
  {
    if n >= base {
      assert q >= 1;
      assert q * base == q * (base - 2) + 2 * q;
      assert q * (base - 2) >= 0;
    }
  }

  lemma {:induction false} NumeralRoundTrip(n: nat, base: nat)
    requires 2 <= base <= 10
    ensures ParseNumeral(Numeral(n, base), base) == n
    decreases n
  {
    DigitRoundTrip(n % base);
    if n < base {
      ParseSnoc([], DigitChar(n), base);
      assert [] + [DigitChar(n)] == [DigitChar(n)];
    } else {
      var q, r := n / base, n % base;
      DivMod(n, base, q, r);
      var t := Numeral(q, base);
      assert Numeral(n, base) == t + [DigitChar(r)];
      NumeralRoundTrip(q, base);
      ParseSnoc(t, DigitChar(r), base);
    }
  }

  /** Distinct numbers render differently. */
  lemma NumeralInjective(n: nat, m: nat, base: nat)
    requires 2 <= base <= 10
    requires Numeral(n, base) == Numeral(m, base)
    ensures n == m
  {
    NumeralRoundTrip(n, base);
    NumeralRoundTrip(m, base);
  }

  function Octal(n: nat): string { Numeral(n, 8) }

  function Decimal(n: nat): string { Numeral(n, 10) }

  // ---------------------------------------------------------------------
  // Display
  // ---------------------------------------------------------------------

  /** `sub` occurs in `s` starting at index `i`. */
  predicate OccursAt(s: string, sub: string, i: int) {
    0 <= i <= |s| - |sub| && s[i..i + |sub|] == sub
  }

  /** `sub` occurs in `s` as a contiguous substring. */
  predicate Contains(s: string, sub: string) {
    exists i :: 0 <= i <= |s| - |sub| && OccursAt(s, sub, i)
  }

  lemma ContainsSuffix(s: string, sub: string)
    ensures Contains(s + sub, sub)
  {
    assert OccursAt(s + sub, sub, |s|);
  }

  lemma ContainsExtend(s: string, sub: string, t: string)
    requires Contains(s, sub)
    ensures Contains(s + t, sub)
  {
    var i :| 0 <= i <= |s| - |sub| && OccursAt(s, sub, i);
    assert (s + t)[i..i + |sub|] == s[i..i + |sub|];
    assert OccursAt(s + t, sub, i);
  }

  /** The struct's `Display`: its name, then every field by name, the mode in
      octal and the ids in decimal. */
  function EntryDisplay(e: FileIntegrityEntry): (r: string)
    ensures |r| > 27 + |e.path| && r[..27 + |e.path|] == "FileIntegrityEntry { path: " + e.path
    ensures r[|r| - 2..] == " }"
  {
    "FileIntegrityEntry { path: " + e.path
    + ", sha512: " + e.sha512
    + ", mode: " + Octal(e.mode)
    + ", uid: " + Decimal(e.uid)
    + ", gid: " + Decimal(e.gid)
    + " }"
  }

  /** The baseline's `Display`: its image id, its timestamp and the number of
      its entries, not the entries themselves. */
  function BaselineDisplay(b: Baseline): (r: string)
    ensures |r| > 21 + |b.imageId| && r[..21 + |b.imageId|] == "Baseline { image_id: " + b.imageId
    ensures r[|r| - 8..] == " files }"
  {
    "Baseline { image_id: " + b.imageId
    + ", timestamp: " + b.timestamp
    + ", entries: " + Decimal(|b.entries|) + " files }"
  }

  /** The entry's rendering shows its path, its hash and its mode in octal. */
  lemma EntryDisplayShowsFields(e: FileIntegrityEntry)
    ensures Contains(EntryDisplay(e), e.path)
    ensures Contains(EntryDisplay(e), e.sha512)
    ensures Contains(EntryDisplay(e), Octal(e.mode))
  {
    var s1 := "FileIntegrityEntry { path: " + e.path;
    var s2 := s1 + ", sha512: ";
    var s3 := s2 + e.sha512;
    var s4 := s3 + ", mode: ";
    var s5 := s4 + Octal(e.mode);
    var s6 := s5 + ", uid: ";
    var s7 := s6 + Decimal(e.uid);
    var s8 := s7 + ", gid: ";
    var s9 := s8 + Decimal(e.gid);
    assert EntryDisplay(e) == s9 + " }";
    ContainsSuffix("FileIntegrityEntry { path: ", e.path);
    ContainsExtend(s1, e.path, ", sha512: ");
    ContainsExtend(s2, e.path, e.sha512);
    ContainsSuffix(s2, e.sha512);
    ContainsSuffix(s4, Octal(e.mode));
    ContainsExtend(s3, e.path, ", mode: ");
    ContainsExtend(s3, e.sha512, ", mode: ");
    ContainsExtend(s4, e.path, Octal(e.mode));
    ContainsExtend(s4, e.sha512, Octal(e.mode));
    forall sub | sub in [e.path, e.sha512, Octal(e.mode)]
      ensures Contains(EntryDisplay(e), sub)
    {
      ContainsExtend(s5, sub, ", uid: ");
      ContainsExtend(s6, sub, Decimal(e.uid));
      ContainsExtend(s7, sub, ", gid: ");
      ContainsExtend(s8, sub, Decimal(e.gid));
      ContainsExtend(s9, sub, " }");
    }
  }

  /** The baseline's rendering shows its image id, its timestamp and "N files"
      for its N entries. */
  lemma BaselineDisplayShowsFields(b: Baseline)
    ensures Contains(BaselineDisplay(b), b.imageId)
    ensures Contains(BaselineDisplay(b), b.timestamp)
    ensures Contains(BaselineDisplay(b), Decimal(|b.entries|) + " files")
  {
    var n := Decimal(|b.entries|);
    var s1 := "Baseline { image_id: " + b.imageId;
    var s2 := s1 + ", timestamp: ";
    var s3 := s2 + b.timestamp;
    var s4 := s3 + ", entries: ";
    assert BaselineDisplay(b) == s4 + (n + " files") + " }";
    ContainsSuffix("Baseline { image_id: ", b.imageId);
    ContainsExtend(s1, b.imageId, ", timestamp: ");
    ContainsExtend(s2, b.imageId, b.timestamp);
    ContainsSuffix(s2, b.timestamp);
    ContainsSuffix(s4, n + " files");
    forall sub | sub in [b.imageId, b.timestamp]
      ensures Contains(s4 + (n + " files"), sub)
    {
      ContainsExtend(s3, sub, ", entries: ");
      ContainsExtend(s4, sub, n + " files");
    }
    forall sub | sub in [b.imageId, b.timestamp, n + " files"]
      ensures Contains(BaselineDisplay(b), sub)
    {
      ContainsExtend(s4 + (n + " files"), sub, " }");
    }
  }

  /** Mode 0o644 (decimal 420) is shown as "644". */
  lemma EntryDisplayOctalExample(e: FileIntegrityEntry)
    requires e.mode == 420
    ensures Contains(EntryDisplay(e), "644")
  {
    assert Numeral(6, 8) == "6";
    assert Numeral(52, 8) == "64";
    assert Octal(420) == "644";
    EntryDisplayShowsFields(e);
  }

  /** A baseline of two entries is shown with "2 files". */
  lemma BaselineDisplayCountExample(b: Baseline)
    requires |b.entries| == 2
    ensures Contains(BaselineDisplay(b), "2 files")
  {
    assert Decimal(2) == "2";
    assert Decimal(|b.entries|) + " files" == "2 files";
    BaselineDisplayShowsFields(b);
  }
}
