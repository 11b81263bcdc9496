/**
 * The pieces of the C++ standard library the request handlers are built from:
 * `std::string::find`, `substr` with a count of `npos`, the C-string
 * constructor `std::string(const char*)`, the whitespace test of `operator>>`,
 * and `std::to_string` on a size. A C++ `char` is modelled as a Dafny `char`.
 */
module Strings {
  import opened Wrappers

  /** `std::string::size_type` is 64 bits wide. */
  const SIZE_T_MODULUS: nat := 0x1_0000_0000_0000_0000
  /** `std::string::npos`, the all-ones size that a failed `find` returns. */
  const NPOS: nat := SIZE_T_MODULUS - 1

  predicate OccursAt(s: string, pat: string, i: nat) {
    i + |pat| <= |s| && s[i..i + |pat|] == pat
  }

  predicate StartsWith(s: string, prefix: string) {
    |prefix| <= |s| && s[..|prefix|] == prefix
  }

  /** `s.find(pat, from)`: the first position at or after `from` where `pat`
      occurs; None stands for `npos`. */
  function Find(s: string, pat: string, from: nat): (r: Option<nat>)
    ensures r.Some? ==> from <= r.value && OccursAt(s, pat, r.value)
    ensures r.Some? ==> forall j :: from <= j < r.value ==> !OccursAt(s, pat, j)
    ensures r.None? ==> forall j :: from <= j ==> !OccursAt(s, pat, j)
    decreases |s| - from
  {
    if from + |pat| > |s| then None
    else if OccursAt(s, pat, from) then Some(from)
    else Find(s, pat, from + 1)
  }

  predicate Contains(s: string, pat: string) {
    Find(s, pat, 0).Some?
  }

  /** `s.substr(0, s.find(delim))`: the text before the first `delim`, or all
      of `s` when there is none (a count of `npos` runs to the end). */
  function Before(s: string, delim: string): (prefix: string)
    ensures StartsWith(s, prefix)
    ensures forall j :: 0 <= j < |prefix| ==> !OccursAt(s, delim, j)
    ensures prefix == s || OccursAt(s, delim, |prefix|)
  {
    match Find(s, delim, 0)
    case None => s
    case Some(i) => s[..i]
  }

  /** `size_t` addition and subtraction wrap around modulo 2^64. */
  function SizeWrap(n: int): (r: nat)
    ensures r < SIZE_T_MODULUS
  {
    n % SIZE_T_MODULUS
  }

  lemma SizeWrapSmall(n: int)
    requires 0 <= n < SIZE_T_MODULUS
    ensures SizeWrap(n) == n
  {
  }

  /** `npos + 4` wraps around to 3. */
  lemma NposPlusFour()
    ensures SizeWrap(NPOS + 4) == 3
  {
  }

  /** A search result as `size_t`: the position, or `npos`. */
  function PositionOrNpos(found: Option<nat>): nat
  {
    match found
    case Some(i) => i
    case None => NPOS
  }

  /** `s.substr(pos, count)`: the characters from `pos` on, at most `count`
      of them; `pos` past the end throws, which callers rule out. */
  function Substr(s: string, pos: nat, count: nat): (r: string)
    requires pos <= |s|
    ensures StartsWith(s[pos..], r)
    ensures |r| == if count < |s| - pos then count else |s| - pos
  {
    if count < |s| - pos then s[pos..pos + count] else s[pos..]
  }

  /** `s.substr(0, s.find(delim))` is the text before the first `delim`. */
  lemma SubstrBeforeFind(s: string, delim: string)
    requires |s| < NPOS
    ensures Substr(s, 0, PositionOrNpos(Find(s, delim, 0))) == Before(s, delim)
  {
  }

  lemma ThreeParts(s: string, i: nat, j: nat)
    requires i <= j <= |s|
    ensures s == s[..i] + s[i..j] + s[j..]
  {
  }

  /** A search that finds a first occurrence at `k` answers `k`. */
  lemma FirstOccurrence(s: string, pat: string, from: nat, k: nat)
    requires from <= k && OccursAt(s, pat, k)
    requires forall j :: from <= j < k ==> !OccursAt(s, pat, j)
    ensures Find(s, pat, from) == Some(k)
  {
  }

  /** A search may skip a stretch that holds no occurrence. */
  lemma FindSkip(s: string, pat: string, from: nat, to: nat)
    requires from <= to
    requires forall j :: from <= j < to ==> !OccursAt(s, pat, j)
    ensures Find(s, pat, from) == Find(s, pat, to)
  {
    match Find(s, pat, from)
    case None =>
    case Some(k) => FirstOccurrence(s, pat, to, k);
  }

  /** An occurrence of `pat` at `j` puts `pat[t]` at `j + t`. */
  lemma OccurrenceChar(s: string, pat: string, j: nat, t: nat)
    requires OccursAt(s, pat, j) && t < |pat|
    ensures s[j + t] == pat[t]
  {
    assert s[j..j + |pat|][t] == s[j + t];
  }

  /** One character that differs from `pat` rules out an occurrence. */
  lemma Mismatch(s: string, pat: string, j: nat, t: nat)
    requires t < |pat| && j + t < |s| && s[j + t] != pat[t]
    ensures !OccursAt(s, pat, j)
  {
    if j + |pat| <= |s| {
      assert s[j..j + |pat|][t] == s[j + t];
    }
  }

  /** A search that starts at `k` sees the suffix `s[k..]` shifted by `k`. */
  lemma SuffixOccurrence(s: string, pat: string, k: nat, j: nat)
    requires k <= |s|
    ensures OccursAt(s, pat, k + j) <==> OccursAt(s[k..], pat, j)
  {
    if k + j + |pat| <= |s| {
      assert s[k..][j..j + |pat|] == s[k + j..k + j + |pat|];
    }
  }

  /** Searching `s` from `k` is searching the suffix of `s` at `k`. */
  lemma FindInSuffix(s: string, pat: string, k: nat)
    requires k <= |s|
    ensures Find(s, pat, k).Some? <==> Find(s[k..], pat, 0).Some?
    ensures Find(s, pat, k).Some? ==> Find(s, pat, k).value == k + Find(s[k..], pat, 0).value
  {
    match Find(s[k..], pat, 0)
    case None =>
      forall j | k <= j ensures !OccursAt(s, pat, j) {
        SuffixOccurrence(s, pat, k, j - k);
      }
    case Some(v) =>
      forall j | k <= j < k + v ensures !OccursAt(s, pat, j) {
        SuffixOccurrence(s, pat, k, j - k);
      }
      SuffixOccurrence(s, pat, k, v);
      FirstOccurrence(s, pat, k, k + v);
  }


  /** `std::string(buffer)` on a zero-filled buffer: the characters before the
      first NUL. */
  function CString(received: string): (r: string)
    ensures '\0' !in r
    ensures StartsWith(received, r)
    ensures |r| < |received| ==> received[|r|] == '\0'
  {
    if received == [] || received[0] == '\0' then []
    else [received[0]] + CString(received[1..])
  }

  /** The characters `isspace` accepts in the C locale. */
  predicate IsSpace(c: char) {
    c == ' ' || c == '\t' || c == '\n' || c == '\U{0B}' || c == '\U{0C}' || c == '\r'
  }

  predicate AllSpace(s: string) {
    forall i :: 0 <= i < |s| ==> IsSpace(s[i])
  }

  predicate NoSpace(s: string) {
    forall i :: 0 <= i < |s| ==> !IsSpace(s[i])
  }

  predicate IsDigit(c: char) {
    '0' <= c <= '9'
  }

  predicate AllDigits(s: string) {
    forall i :: 0 <= i < |s| ==> IsDigit(s[i])
  }

  /** The form `std::to_string` gives an unsigned number: digits only, and no
      leading zero unless the number is zero. */
  predicate IsCanonicalDecimal(s: string) {
    s != [] && AllDigits(s) && (s[0] == '0' ==> s == "0")
  }

  function DigitChar(d: nat): (c: char)
    requires d < 10
    ensures IsDigit(c) && c as int - '0' as int == d
  {
    ('0' as int + d) as char
  }

  function DigitValue(c: char): (d: nat)
    requires IsDigit(c)
    ensures d < 10 && DigitChar(d) == c
  {
    c as int - '0' as int
  }

  /** `std::to_string(n)` for a size `n`. */
  function NatToDecimal(n: nat): (s: string)
    ensures IsCanonicalDecimal(s)
    ensures s == "0" <==> n == 0
    decreases n
  {
    if n < 10 then [DigitChar(n)]
    else NatToDecimal(n / 10) + [DigitChar(n % 10)]
  }

  /** The number a string of decimal digits denotes. */
  function DecimalToNat(s: string): nat
    requires AllDigits(s)
    decreases |s|
  {
    if s == [] then 0
    else 10 * DecimalToNat(s[..|s| - 1]) + DigitValue(s[|s| - 1])
  }

  /** Reading back the digits `std::to_string` wrote gives the number. */
  lemma {:induction false} DecimalRoundTrip(n: nat)
    ensures DecimalToNat(NatToDecimal(n)) == n
    decreases n
  {
    var s := NatToDecimal(n);
    if n >= 10 {
      assert s[..|s| - 1] == NatToDecimal(n / 10);
      DecimalRoundTrip(n / 10);
    }
  }

  lemma {:induction false} LeadingDigitPositive(s: string)
    requires s != [] && AllDigits(s) && s[0] != '0'
    ensures DecimalToNat(s) >= 1
    decreases |s|
  {
    if |s| > 1 {
      LeadingDigitPositive(s[..|s| - 1]);
    }
  }

  /** Every canonical decimal is the rendering of the number it denotes, so the
      rendering is one-to-one and onto the canonical decimals. */
  lemma {:induction false} CanonicalDecimalRoundTrip(s: string)
    requires IsCanonicalDecimal(s)
    ensures NatToDecimal(DecimalToNat(s)) == s
    decreases |s|
  {
    if |s| > 1 {
      var p := s[..|s| - 1];
      LeadingDigitPositive(p);
      CanonicalDecimalRoundTrip(p);
      var n := DecimalToNat(s);
      assert n / 10 == DecimalToNat(p) && n % 10 == DigitValue(s[|s| - 1]);
      assert s == p + [s[|s| - 1]];
    }
  }
}
