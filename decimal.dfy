/** Base-10 text of 64-bit integers as Go's strconv package writes and reads it:
    FormatUint(n, 10), FormatInt(i, 10) (also what `%d` prints) and ParseUint(s, 10, 64).
    The nonce file holds such text, and the nonce form field and the depth/trades
    `limit` query parameter are written with it. */
module Decimal {
  import opened Wrappers

  /** Go's uint64 and int. */
  type Uint64 = n: nat | n < 0x1_0000_0000_0000_0000
  type Int64 = i: int | -0x8000_0000_0000_0000 <= i < 0x8000_0000_0000_0000

  const MAX_UINT64: Uint64 := 0xFFFF_FFFF_FFFF_FFFF

  /** The two ways strconv.ParseUint fails (strconv.ErrSyntax and strconv.ErrRange). */
  datatype NumError = ErrSyntax | ErrRange

  predicate IsDigit(c: char) {
    '0' <= c <= '9'
  }

  predicate AllDigits(s: string) {
    forall i :: 0 <= i < |s| ==> IsDigit(s[i])
  }

  /** Non-empty and made of digits only: the texts ParseUint reads when they fit in 64 bits. */
  predicate IsDecimal(s: string) {
    |s| > 0 && AllDigits(s)
  }

  /** The one spelling FormatUint produces: no leading zero, except "0" itself. */
  predicate IsCanonical(s: string) {
    IsDecimal(s) && (s[0] == '0' ==> |s| == 1)
  }

  function DigitValue(c: char): (d: nat)
    requires IsDigit(c)
    ensures d < 10
  {
    c as int - '0' as int
  }

  function DigitChar(d: nat): (c: char)
    requires d < 10
    ensures IsDigit(c) && DigitValue(c) == d
  {
    ('0' as int + d) as char
  }

  /** The number a digit string denotes, most significant digit first. */
  function Value(s: string): nat
    requires AllDigits(s)
  {
    if s == [] then 0 else Value(s[..|s| - 1]) * 10 + DigitValue(s[|s| - 1])
  }

  /** strconv.FormatUint(n, 10): the canonical decimal text of n. */
  function FormatUint(n: Uint64): (s: string)
    ensures IsCanonical(s) && Value(s) == n
    ensures s[0] == '0' <==> n == 0
  {
    if n < 10 then [DigitChar(n)] else FormatUint(n / 10) + [DigitChar(n % 10)]
  }

  /** strconv.FormatInt(i, 10), equally `fmt.Sprintf("%d", i)`: a minus sign before the
      canonical digits of |i| when i is negative. */
  function FormatInt(i: Int64): (s: string)
    ensures i >= 0 ==> IsCanonical(s) && Value(s) == i
    ensures i < 0 ==> |s| >= 2 && s[0] == '-' && IsCanonical(s[1..]) && Value(s[1..]) == -(i as int)
  {
    if i < 0 then "-" + FormatUint(-(i as int)) else FormatUint(i)
  }

  /** Different integers have different decimal texts. */
  lemma FormatIntInjective(a: Int64, b: Int64)
    requires a != b
    ensures FormatInt(a) != FormatInt(b)
  {
    var sa, sb := FormatInt(a), FormatInt(b);
    if a >= 0 && b < 0 {
      assert sb[0] == '-' && IsDigit(sa[0]);
    } else if a < 0 && b >= 0 {
      assert sa[0] == '-' && IsDigit(sb[0]);
    }
  }

  /** The digit loop of strconv.ParseUint for base 10, with `acc` the value read so far:
      a non-digit stops it with ErrSyntax, and so does a value that stops fitting in
      64 bits, with ErrRange, whichever comes first from the left. */
  function Scan(s: string, acc: Uint64): Result<Uint64, NumError>
  {
    if s == [] then Ok(acc)
    else if !IsDigit(s[0]) then Err(ErrSyntax)
    else if acc * 10 + DigitValue(s[0]) > MAX_UINT64 then Err(ErrRange)
    else Scan(s[1..], acc * 10 + DigitValue(s[0]))
  }

  /** strconv.ParseUint(s, 10, 64): succeeds exactly on a non-empty digit string whose
      value fits in 64 bits (leading zeros allowed), and returns that value. */
  function ParseUint(s: string): (r: Result<Uint64, NumError>)
    ensures r.Ok? <==> IsDecimal(s) && Value(s) <= MAX_UINT64
    ensures r.Ok? ==> r.value == Value(s)
    ensures s == [] ==> r == Err(ErrSyntax)
    ensures IsDecimal(s) && Value(s) > MAX_UINT64 ==> r == Err(ErrRange)
  {
    if s == [] then Err(ErrSyntax)
    else
      ScanFrom(s, 0);
      assert s[..0] == [] && s[0..] == s;
      Scan(s, 0)
  }

  /** The value of a prefix never exceeds the value of a longer prefix. */
  lemma {:induction false} PrefixValueMonotone(s: string, j: nat, k: nat)
    requires AllDigits(s) && j <= k <= |s|
    ensures Value(s[..j]) <= Value(s[..k])
    decreases k
  {
    if j < k {
      PrefixValueMonotone(s, j, k - 1);
      assert s[..k][..k - 1] == s[..k - 1];
    }
  }

  /** Scanning the rest of s after its first k digits, starting from their value, reads
      all of s. */
  lemma {:induction false} ScanFrom(s: string, k: nat)
    requires k <= |s| && AllDigits(s[..k]) && Value(s[..k]) <= MAX_UINT64
    ensures var r := Scan(s[k..], Value(s[..k]));
      && (r.Ok? <==> AllDigits(s) && Value(s) <= MAX_UINT64)
      && (r.Ok? ==> r.value == Value(s))
      && (AllDigits(s) && Value(s) > MAX_UINT64 ==> r == Err(ErrRange))
    decreases |s| - k
  {
    if k == |s| {
      assert s[..k] == s;
    } else if IsDigit(s[k]) {
      var next := s[..k + 1];
      assert next[..k] == s[..k] && next[k] == s[k];
      assert AllDigits(next);
      if Value(next) > MAX_UINT64 {
        if AllDigits(s) {
          PrefixValueMonotone(s, k + 1, |s|);
          assert s[..|s|] == s;
        }
      } else {
        assert s[k..][1..] == s[k + 1..];
        ScanFrom(s, k + 1);
      }
    }
  }

  /** Reading back what FormatUint wrote gives the number that was written. */
  lemma ParseFormat(n: Uint64)
    ensures ParseUint(FormatUint(n)) == Ok(n)
  {
  }

  /** Every canonical 64-bit decimal text is what FormatUint writes for its value, so
      formatting what was parsed reproduces a canonical text exactly. */
  lemma {:induction false} FormatParse(s: string)
    requires IsCanonical(s) && Value(s) <= MAX_UINT64
    ensures FormatUint(Value(s)) == s
    decreases |s|
  {
    var last := s[|s| - 1];
    var p := s[..|s| - 1];
    if |s| == 1 {
      assert s == [last];
    } else {
      assert p[0] == s[0] && s[0] != '0';
      PrefixValueMonotone(p, 1, |p|);
      assert p[..1][..0] == [] && p[..|p|] == p;
      assert Value(p) >= 1;
      assert Value(s) / 10 == Value(p) && Value(s) % 10 == DigitValue(last);
      FormatParse(p);
      assert p + [last] == s;
    }
  }
}
