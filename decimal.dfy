/** The decimal-run converter used for extension version numbers
    (`_decimal_part_to_uint` in cpufeature.c). */
module Decimal {
  import opened CString

  /** UINT_MAX for the 32-bit `unsigned int` the converter writes. */
  const UintMax: nat := 0xFFFF_FFFF
  const EINVAL: int := 22
  const ERANGE: int := 34

  /** The value of a digit byte (0 for any other byte). */
  function DigitValue(c: char): nat
  {
    if IsDigit(c) then c as int - '0' as int else 0
  }

  function DigitChar(d: nat): (c: char)
    requires d < 10
    ensures IsDigit(c) && DigitValue(c) == d
  {
    ('0' as int + d) as char
  }

  /** The value of the digits s[k..e], most significant first. */
  function RunValue(s: string, k: nat, e: nat): nat
    requires k <= e <= |s|
    decreases e
  {
    if e == k then 0 else RunValue(s, k, e - 1) * 10 + DigitValue(s[e - 1])
  }

  /** Index just past the maximal run of digits that starts at k. */
  function DigitsEnd(s: string, k: nat): (e: nat)
    ensures k <= e
    ensures e > k ==> e <= |s|
    ensures forall j :: k <= j < e ==> j < |s| && IsDigit(s[j])
    ensures !IsDigit(At(s, e))
    decreases |s| - k
  {
    if IsDigit(At(s, k)) then DigitsEnd(s, k + 1) else k
  }

  /** What the converter reports for the digits at index k of s. */
  datatype Parsed = Ok(value: nat) | NotDigit | OutOfRange

  /** The converter's result stated on the whole digit run: the value of the
      maximal run, or OutOfRange when that value does not fit an unsigned int. */
  function DecimalPart(s: string, k: nat): Parsed
  {
    if !IsDigit(At(s, k)) then NotDigit
    else
      var v := RunValue(s, k, DigitsEnd(s, k));
      if v > UintMax then OutOfRange else Ok(v)
  }

  /** The value of the digit run at k if it converts, and `dflt` (the
      untouched destination) otherwise. */
  function DecimalOr(s: string, k: nat, dflt: nat): nat
  {
    match DecimalPart(s, k)
    case Ok(v) => v
    case _ => dflt
  }

  /** The decimal spelling of n, without leading zeros. */
  function Dec(n: nat): (ds: string)
    ensures AllDigits(ds) && |ds| > 0
  {
    if n < 10 then [DigitChar(n)] else Dec(n / 10) + [DigitChar(n % 10)]
  }

  /** A longer run is worth at least as much as its prefix. */
  lemma {:induction false} RunValueGrows(s: string, k: nat, i: nat, e: nat)
    requires k <= i <= e <= |s|
    ensures RunValue(s, k, i) <= RunValue(s, k, e)
    decreases e - i
  {
    if i < e {
      RunValueGrows(s, k, i, e - 1);
    }
  }

  /** The C guard `value > (UINT_MAX - d) / 10` is exactly "value * 10 + d
      would not fit". */
  lemma OverflowGuard(value: nat, d: nat)
    requires d < 10
    ensures value > (UintMax - d) / 10 <==> value * 10 + d > UintMax
  {
    var q := (UintMax - d) / 10;
    assert UintMax - d == q * 10 + (UintMax - d) % 10;
  }

  /** The digit run starting at k ends at j when s[k..j] are digits and the
      byte at j is not. */
  lemma {:induction false} DigitsEndAt(s: string, k: nat, j: nat)
    requires k <= j <= |s|
    requires forall i :: k <= i < j ==> IsDigit(s[i])
    requires !IsDigit(At(s, j))
    ensures DigitsEnd(s, k) == j
    decreases j - k
  {
    if k < j {
      DigitsEndAt(s, k + 1, j);
    }
  }

  /** The converter: it rejects a non-digit start, accumulates the maximal
      digit run and refuses a value that would exceed UINT_MAX; the
      destination `res` is replaced only on success. */
  method DecimalPartToUint(s: string, k: nat, res: nat) returns (rc: int, res': nat)
    ensures rc == 0 <==> DecimalPart(s, k).Ok?
    ensures rc == -EINVAL <==> DecimalPart(s, k).NotDigit?
    ensures rc == -ERANGE <==> DecimalPart(s, k).OutOfRange?
    ensures rc == 0 ==> res' == DecimalPart(s, k).value
    ensures rc != 0 ==> res' == res
  {
    if !IsDigit(At(s, k)) {
      return -EINVAL, res;
    }
    ghost var e := DigitsEnd(s, k);
    var value: nat := 0;
    var i := k;
    while IsDigit(At(s, i))
      invariant k <= i <= e
      invariant value == RunValue(s, k, i) && value <= UintMax
      decreases |s| - i
    {
      var d := DigitValue(s[i]);
      OverflowGuard(value, d);
      if value > (UintMax - d) / 10 {
        RunValueGrows(s, k, i + 1, e);
        return -ERANGE, res;
      }
      value := value * 10 + d;
      i := i + 1;
    }
    return 0, value;
  }

  lemma {:induction false} DecValue(n: nat)
    ensures RunValue(Dec(n), 0, |Dec(n)|) == n
  {
    if n >= 10 {
      DecValue(n / 10);
      var ds := Dec(n);
      RunValueShift(ds, 0, Dec(n / 10), |Dec(n / 10)|);
    }
  }

  /** The value of a run depends only on its bytes. */
  lemma {:induction false} RunValueShift(s: string, k: nat, ds: string, j: nat)
    requires j <= |ds| && k + |ds| <= |s|
    requires forall i :: 0 <= i < |ds| ==> s[k + i] == ds[i]
    ensures RunValue(s, k, k + j) == RunValue(ds, 0, j)
    decreases j
  {
    if j > 0 {
      RunValueShift(s, k, ds, j - 1);
      assert s[k + j - 1] == ds[j - 1];
    }
  }

  /** ds is a non-empty digit string whose value is n. */
  predicate Spells(ds: string, n: nat)
  {
    |ds| > 0 && AllDigits(ds) && RunValue(ds, 0, |ds|) == n
  }

  lemma DecSpells(n: nat)
    ensures Spells(Dec(n), n)
  {
    DecValue(n);
  }

  /** Wherever a spelling of n sits in s, followed by a non-digit, the
      converter reads n back. */
  lemma DecimalPartAt(s: string, k: nat, ds: string, n: nat)
    requires Spells(ds, n) && n <= UintMax && k + |ds| <= |s|
    requires forall i :: 0 <= i < |ds| ==> s[k + i] == ds[i]
    requires !IsDigit(At(s, k + |ds|))
    ensures DecimalPart(s, k) == Ok(n)
  {
    assert s[k + 0] == ds[0];
    forall i | k <= i < k + |ds| ensures IsDigit(s[i]) {
      assert s[k + (i - k)] == ds[i - k];
    }
    DigitsEndAt(s, k, k + |ds|);
    RunValueShift(s, k, ds, |ds|);
  }

  /** Round trip: the converter reads back the decimal spelling of any value
      that fits an unsigned int, wherever the run is followed by a non-digit. */
  lemma DecimalPartOfDec(n: nat, pre: string, rest: string)
    requires n <= UintMax && !IsDigit(At(rest, 0))
    ensures DecimalPart(pre + Dec(n) + rest, |pre|) == Ok(n)
  {
    var ds := Dec(n);
    var s := pre + ds + rest;
    assert forall i :: 0 <= i < |ds| ==> s[|pre| + i] == ds[i];
    assert At(s, |pre| + |ds|) == At(rest, 0);
    DecSpells(n);
    DecimalPartAt(s, |pre|, ds, n);
  }
}
