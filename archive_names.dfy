/**
 * Naming of a partition's archive: the partition number in decimal, padded on
 * the left with zeros to six characters (Python's `{part_id:06}`), between the
 * fixed prefix `part-` and the suffix `.zip`. The same name is used for the
 * remote URL and for the scratch file the download lands in.
 */
module ArchiveNames {
  import opened Wrappers

  const HfSite: string := "https://hf-mirror.com"
  const RemoteDir: string := HfSite + "/datasets/poloclub/diffusiondb/resolve/main/diffusiondb-large-part-1/"
  const ScratchDir: string := "./tmp/"
  const Width: nat := 6

  predicate IsDigit(c: char) {
    '0' <= c <= '9'
  }

  predicate AllDigits(s: string) {
    forall i :: 0 <= i < |s| ==> IsDigit(s[i])
  }

  function DigitChar(d: nat): (c: char)
    requires d < 10
    ensures IsDigit(c) && c as int - '0' as int == d
  {
    ('0' as int + d) as char
  }

  /** The decimal numeral of `n`, without leading zeros. */
  function Digits(n: nat): (r: string)
    ensures |r| >= 1 && AllDigits(r)
    ensures r[0] == '0' ==> n == 0
  {
    if n < 10 then [DigitChar(n)] else Digits(n / 10) + [DigitChar(n % 10)]
  }

  /** The value of a string of decimal digits (its partner: parsing). */
  function Value(s: string): nat
    requires AllDigits(s)
  {
    if s == [] then 0 else Value(s[..|s| - 1]) * 10 + (s[|s| - 1] as int - '0' as int)
  }

  function Zeros(k: nat): (r: string)
    ensures |r| == k && AllDigits(r)
    ensures forall i :: 0 <= i < k ==> r[i] == '0'
  {
    if k == 0 then [] else Zeros(k - 1) + "0"
  }

  /** `{n:06}`: the numeral of `n`, left-padded with zeros to at least six characters. */
  function Padded(n: nat): (r: string)
    ensures AllDigits(r) && |r| >= Width
  {
    var d := Digits(n);
    if |d| >= Width then d else Zeros(Width - |d|) + d
  }

  function ArchiveName(n: nat): string {
    "part-" + Padded(n) + ".zip"
  }

  /** Where `aria2c -d ./tmp -o part-NNNNNN.zip` leaves the download. */
  function TempPath(n: nat): string {
    ScratchDir + ArchiveName(n)
  }

  function ArchiveUrl(n: nat): string {
    RemoteDir + ArchiveName(n)
  }

  /** Recovers the partition number from an archive name (inverse of ArchiveName). */
  function ParseArchiveName(s: string): Option<nat> {
    if |s| >= 9 && s[..5] == "part-" && s[|s| - 4..] == ".zip" && AllDigits(s[5..|s| - 4])
    then Some(Value(s[5..|s| - 4]))
    else None
  }

  lemma {:induction false} ValueOfDigits(n: nat)
    ensures Value(Digits(n)) == n
  {
    if n >= 10 {
      var d := Digits(n);
      assert d[..|d| - 1] == Digits(n / 10);
      ValueOfDigits(n / 10);
    }
  }

  /** Leading zeros do not change a numeral's value. */
  lemma {:induction false} ValueOfZeroPrefix(k: nat, s: string)
    requires AllDigits(s)
    ensures Value(Zeros(k) + s) == Value(s)
    decreases |s|
  {
    var z := Zeros(k);
    if s == [] {
      assert z + s == z;
      ValueOfZeros(k);
    } else {
      assert (z + s)[..|z + s| - 1] == z + s[..|s| - 1];
      ValueOfZeroPrefix(k, s[..|s| - 1]);
    }
  }

  lemma {:induction false} ValueOfZeros(k: nat)
    ensures Value(Zeros(k)) == 0
  {
    if k > 0 {
      assert Zeros(k)[..k - 1] == Zeros(k - 1);
      ValueOfZeros(k - 1);
    }
  }

  /** The padded field reads back as the partition number, and is exactly six
      characters long unless the numeral itself is longer. */
  lemma PaddedValue(n: nat)
    ensures Value(Padded(n)) == n
    ensures |Padded(n)| == if |Digits(n)| >= Width then |Digits(n)| else Width
    ensures |Padded(n)| > Width ==> Padded(n)[0] != '0'
  {
    ValueOfDigits(n);
    if |Digits(n)| < Width {
      ValueOfZeroPrefix(Width - |Digits(n)|, Digits(n));
    }
  }

  /** Parsing an archive name gives back the partition it was made from. */
  lemma ParseArchiveNameRoundTrip(n: nat)
    ensures ParseArchiveName(ArchiveName(n)) == Some(n)
  {
    var s, p := ArchiveName(n), Padded(n);
    PaddedValue(n);
    assert s[..5] == "part-" && s[|s| - 4..] == ".zip";
    assert s[5..|s| - 4] == p;
  }

  /** Distinct partitions never share an archive name, a scratch file or a URL. */
  lemma ArchiveNameInjective(m: nat, n: nat)
    requires m != n
    ensures ArchiveName(m) != ArchiveName(n)
    ensures TempPath(m) != TempPath(n)
    ensures ArchiveUrl(m) != ArchiveUrl(n)
  {
    ParseArchiveNameRoundTrip(m);
    ParseArchiveNameRoundTrip(n);
    assert TempPath(m)[|ScratchDir|..] == ArchiveName(m) && TempPath(n)[|ScratchDir|..] == ArchiveName(n);
    assert ArchiveUrl(m)[|RemoteDir|..] == ArchiveName(m) && ArchiveUrl(n)[|RemoteDir|..] == ArchiveName(n);
  }

  /** Partition 5 is fetched as `part-000005.zip`. */
  lemma ArchiveNameOfFive()
    ensures ArchiveName(5) == "part-000005.zip"
  {
  }

  /** A seven-digit partition number is used as it is, without padding. */
  lemma ArchiveNameOfSevenDigits()
    ensures ArchiveName(1234567) == "part-1234567.zip"
  {
  }
}
