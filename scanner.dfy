/** The body of the token loop of `riscv_fill_hwcap` (cpufeature.c), as the
    C code runs it: a cursor moving forward over the span of a multi-letter
    token, backward over its version digits, forward over a single-letter
    token's version. Each step is proved to compute IsaGrammar.NextToken. */
module IsaScanner {
  import opened CString
  import opened Decimal
  import opened IsaGrammar

  /** One token from p: the token and the position where the scan resumes. */
  method ScanToken(s: string, p: nat) returns (tok: Token, next: nat)
    requires p < |s|
    ensures Scanned(tok, next) == NextToken(s, p)
  {
    var isa: nat;
    if s[p] == 's' && At(s, p - 1) != '_' && At(s, p + 1) == 'u' {
      tok, isa := QemuSu, p + 2;
    } else if IsMultiStart(s[p]) {
      tok, isa := ScanLong(s, p);
    } else {
      tok, isa := ScanLetter(s, p);
    }
    next := if At(s, isa) == '_' then isa + 1 else isa;
  }

  /** A multi-letter token: the span up to '_' or the terminator, then its
      version read backward from the end. Returns the end of the span. */
  method ScanLong(s: string, p: nat) returns (tok: Token, isa: nat)
    requires p < |s| && IsMultiStart(s[p])
    ensures isa == SpanEnd(s, p + 1) && p < isa <= |s|
    ensures tok == MultiToken(s, p, isa)
  {
    var err: bool;
    isa, err := ScanSpan(s, p);
    if err {
      tok := Malformed;
    } else if !IsDigit(s[isa - 1]) {
      tok := Multi(s[p..isa], UintMax, 0);
    } else {
      var extEnd := BackOverDigits(s, p, isa - 1);
      tok := ScanVersion(s, p, extEnd);
    }
  }

  /** The forward pass over a multi-letter span, flagging any byte that is
      neither a lower-case letter nor a digit. */
  method ScanSpan(s: string, p: nat) returns (isa: nat, err: bool)
    requires p < |s|
    ensures isa == SpanEnd(s, p + 1) && p < isa <= |s|
    ensures err <==> BadSpan(s, p, isa)
  {
    isa := p + 1;
    err := false;
    while At(s, isa) != '\0' && At(s, isa) != '_'
      invariant p < isa <= |s|
      invariant forall j :: p + 1 <= j < isa ==> s[j] != '_' && s[j] != '\0'
      invariant err <==> BadSpan(s, p, isa)
      decreases |s| - isa
    {
      BadSpanStep(s, p, isa);
      if !IsLower(s[isa]) && !IsDigit(s[isa]) {
        err := true;
      }
      isa := isa + 1;
    }
    SpanEndAt(s, p + 1, isa);
  }

  /** The version at the end of a clean span, whose digit run starts just
      after index e1: a major, or a major and minor around a 'p'. */
  method ScanVersion(s: string, p: nat, e1: nat) returns (tok: Token)
    requires p <= e1 < |s| && IsMultiStart(s[p])
    ensures tok == TrailingVersion(s, p, e1)
  {
    var major := ConvertInto(s, e1 + 1, UintMax);
    if !(s[e1] == 'p' && IsDigit(At(s, e1 - 1))) {
      tok := Multi(s[p..e1 + 1], major, 0);
    } else {
      tok := ScanLeadingMajor(s, p, e1 - 1, major);
    }
  }

  /** The `<major>p<minor>` case: what was read is the minor; walk back over
      the major's digits from k and convert them. */
  method ScanLeadingMajor(s: string, p: nat, k: nat, minor: nat) returns (tok: Token)
    requires p <= k < |s| && !IsDigit(s[p])
    ensures tok == LeadingMajor(s, p, LastNonDigit(s, p, k), minor)
  {
    var extEnd := BackOverDigits(s, p, k);
    var major := ConvertInto(s, extEnd + 1, minor);
    tok := Multi(s[p..extEnd + 1], major, minor);
  }

  /** A conversion whose return code the caller ignores: the destination,
      holding `dest` before, ends up with the converted value when there is
      one. */
  method ConvertInto(s: string, k: nat, dest: nat) returns (v: nat)
    ensures v == DecimalOr(s, k, dest)
  {
    var rc: int;
    rc, v := DecimalPartToUint(s, k, dest);
  }

  /** The backward digit scan: from k down to the last non-digit. */
  method BackOverDigits(s: string, lo: nat, k: nat) returns (j: nat)
    requires lo <= k < |s| && !IsDigit(s[lo])
    ensures j == LastNonDigit(s, lo, k)
  {
    j := k;
    while IsDigit(s[j])
      invariant lo <= j <= k
      invariant forall i :: j < i <= k ==> IsDigit(s[i])
      decreases j
    {
      j := j - 1;
    }
    LastNonDigitAt(s, lo, k, j);
  }

  /** The forward digit scan: from k to just past the run of digits. */
  method OverDigits(s: string, k: nat) returns (e: nat)
    requires k <= |s|
    ensures e == DigitsEnd(s, k)
  {
    e := k;
    while IsDigit(At(s, e))
      invariant k <= e <= |s|
      invariant forall i :: k <= i < e ==> IsDigit(s[i])
      decreases |s| - e
    {
      e := e + 1;
    }
    DigitsEndAt(s, k, e);
  }

  /** Any other first byte: a lower-case letter and its version read
      forward. Returns where the token ends. */
  method ScanLetter(s: string, p: nat) returns (tok: Token, isa: nat)
    requires p < |s| && !IsMultiStart(s[p])
    ensures !IsLower(s[p]) ==> tok == Malformed && isa == p + 1
    ensures IsLower(s[p]) ==> SingleToken(s, p) == Scanned(tok, Resume(s, isa))
  {
    isa := p + 1;
    if !IsLower(s[p]) {
      tok := Malformed;
      return;
    }
    if !IsDigit(At(s, isa)) {
      tok := Single(s[p], UintMax, 0);
      return;
    }
    var major: nat := UintMax;
    var minor: nat := 0;
    var rc: int;
    rc, major := DecimalPartToUint(s, isa, major);
    isa := OverDigits(s, isa);
    if At(s, isa) != 'p' || !IsDigit(At(s, isa + 1)) {
      tok := Single(s[p], major, minor);
      return;
    }
    rc, minor := DecimalPartToUint(s, isa + 1, minor);
    isa := OverDigits(s, isa + 1);
    tok := Single(s[p], major, minor);
  }

  lemma BadSpanStep(s: string, p: nat, k: nat)
    requires p < k < |s|
    ensures BadSpan(s, p, k + 1) <==> BadSpan(s, p, k) || !NameChar(s[k])
  {
    if BadSpan(s, p, k + 1) && NameChar(s[k]) {
      var j :| p < j < k + 1 && !NameChar(s[j]);
      assert j < k;
    }
  }
}
