/** Commit identifiers: the next id is the count of existing commit
    directories plus one, written as `f"{n:04d}"`. */
module CommitIds {

  predicate IsDigit(c: char) {
    '0' <= c <= '9'
  }

  predicate IsDigits(s: string) {
    forall i :: 0 <= i < |s| ==> IsDigit(s[i])
  }

  function DigitChar(d: nat): char
    requires d < 10
  {
    ('0' as int + d) as char
  }

  function DigitValue(c: char): nat
    requires IsDigit(c)
  {
    c as int - '0' as int
  }

  /** The number a string of decimal digits denotes (leading zeros allowed). */
  function DecimalValue(s: string): nat
    requires IsDigits(s)
    decreases |s|
  {
    if s == [] then 0 else DecimalValue(s[..|s| - 1]) * 10 + DigitValue(s[|s| - 1])
  }

  /** `str(n)` for a natural number. */
  function DecimalString(n: nat): (r: string)
    ensures r != [] && IsDigits(r)
  {
    if n < 10 then [DigitChar(n)] else DecimalString(n / 10) + [DigitChar(n % 10)]
  }

  function Zeros(k: nat): string {
    seq(k, _ => '0')
  }

  /** `f"{n:04d}"`: the decimal form of `n`, left-padded with '0' to width 4. */
  function FormatId(n: nat): string {
    var d := DecimalString(n);
    if |d| < 4 then Zeros(4 - |d|) + d else d
  }

  function Pow10(k: nat): nat {
    if k == 0 then 1 else 10 * Pow10(k - 1)
  }

  lemma {:induction false} DecimalStringRoundTrip(n: nat)
    ensures DecimalValue(DecimalString(n)) == n
  {
    var d := DecimalString(n);
    if n < 10 {
      assert d[..0] == [];
    } else {
      DecimalStringRoundTrip(n / 10);
      assert d[..|d| - 1] == DecimalString(n / 10);
    }
  }

  lemma {:induction false} LeadingZero(s: string)
    requires IsDigits(s)
    ensures IsDigits(['0'] + s) && DecimalValue(['0'] + s) == DecimalValue(s)
    decreases |s|
  {
    var z := ['0'] + s;
    if s == [] {
      assert z[..0] == [];
    } else {
      var init := s[..|s| - 1];
      LeadingZero(init);
      assert z[..|z| - 1] == ['0'] + init;
    }
  }

  lemma {:induction false} LeadingZeros(k: nat, s: string)
    requires IsDigits(s)
    ensures IsDigits(Zeros(k) + s) && DecimalValue(Zeros(k) + s) == DecimalValue(s)
  {
    if k > 0 {
      LeadingZeros(k - 1, s);
      LeadingZero(Zeros(k - 1) + s);
      assert Zeros(k) + s == ['0'] + (Zeros(k - 1) + s);
    } else {
      assert Zeros(k) + s == s;
    }
  }

  /** The padded id parses back to the number it was made from. */
  lemma FormatIdRoundTrip(n: nat)
    ensures IsDigits(FormatId(n)) && DecimalValue(FormatId(n)) == n
  {
    var d := DecimalString(n);
    DecimalStringRoundTrip(n);
    if |d| < 4 {
      LeadingZeros(4 - |d|, d);
    }
  }

  lemma FormatIdInjective(m: nat, n: nat)
    ensures FormatId(m) == FormatId(n) ==> m == n
  {
    FormatIdRoundTrip(m);
    FormatIdRoundTrip(n);
  }

  /** `str(n)` has at most `k` digits exactly when `n < 10^k`. */
  lemma {:induction false} DecimalStringLength(n: nat, k: nat)
    requires k >= 1
    ensures |DecimalString(n)| <= k <==> n < Pow10(k)
  {
    if n >= 10 {
      assert |DecimalString(n)| == |DecimalString(n / 10)| + 1;
      if k > 1 {
        DecimalStringLength(n / 10, k - 1);
      } else {
        assert |DecimalString(n / 10)| >= 1;
      }
    } else if k > 1 {
      PowAtLeastTen(k);
    }
  }

  lemma {:induction false} PowAtLeastTen(k: nat)
    requires k >= 1
    ensures Pow10(k) >= 10
  {
    if k > 1 {
      PowAtLeastTen(k - 1);
    }
  }

  /** Ids are exactly four characters long for 0..9999 and longer afterwards,
      where they are the unpadded decimal form. */
  lemma FormatIdWidth(n: nat)
    ensures |FormatId(n)| >= 4
    ensures |FormatId(n)| == 4 <==> n <= 9999
    ensures n > 9999 ==> FormatId(n) == DecimalString(n)
  {
    DecimalStringLength(n, 4);
    assert Pow10(4) == 10000;
  }

  lemma FirstIds()
    ensures FormatId(1) == "0001" && FormatId(2) == "0002" && FormatId(42) == "0042"
    ensures FormatId(9999) == "9999" && FormatId(10000) == "10000"
  {
    assert DecimalString(4) == "4" && DecimalString(42) == "42";
    assert DecimalString(999) == "999" && DecimalString(9999) == "9999";
    assert DecimalString(1000) == "1000" && DecimalString(10000) == "10000";
    assert Zeros(3) == "000" && Zeros(2) == "00";
  }

  /** The names `FormatId(1)` .. `FormatId(n)`: the commit directories that
      `n` successful commits create. */
  ghost function IdsUpTo(n: nat): set<string> {
    if n == 0 then {} else IdsUpTo(n - 1) + {FormatId(n)}
  }

  /** Each of those names parses back to a number in 1..n. */
  lemma {:induction false} IdsUpToParse(n: nat, id: string)
    requires id in IdsUpTo(n)
    ensures IsDigits(id) && 1 <= DecimalValue(id) <= n
  {
    if id == FormatId(n) {
      FormatIdRoundTrip(n);
    } else {
      IdsUpToParse(n - 1, id);
    }
  }

  /** So the id that the directory count yields next is not taken yet. */
  lemma NextIdFresh(n: nat)
    ensures FormatId(n + 1) !in IdsUpTo(n)
  {
    FormatIdRoundTrip(n + 1);
    if FormatId(n + 1) in IdsUpTo(n) {
      IdsUpToParse(n, FormatId(n + 1));
    }
  }
}
