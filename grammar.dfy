/** The grammar that `riscv_fill_hwcap` (cpufeature.c) applies to the part
    of a hart's "riscv,isa" string after the "rv32"/"rv64" prefix, stated as
    functions: one token at a time, with the position where scanning
    resumes. The imperative scanner in module IsaScanner is proved to
    compute NextToken. */
module IsaGrammar {
  import opened CString
  import opened Decimal

  /** What one step of the scan yields. Malformed and QemuSu tokens set
      nothing; the version defaults are major UINT_MAX and minor 0. */
  datatype Token =
    | Malformed
    | QemuSu
    | Single(letter: char, major: nat, minor: nat)
    | Multi(name: string, major: nat, minor: nat)

  datatype Scanned = Scanned(token: Token, next: nat)

  predicate IsMultiStart(c: char) { c == 's' || c == 'x' || c == 'z' }

  predicate NameChar(c: char) { IsLower(c) || IsDigit(c) }

  /** The QEMU carve-out: an 's' not preceded by '_' and followed by 'u'. */
  predicate IsQemuSu(s: string, p: nat)
    requires p < |s|
  {
    s[p] == 's' && At(s, p - 1) != '_' && At(s, p + 1) == 'u'
  }

  /** Index of the first '_' or terminator at or after k: the end of a
      multi-letter token's span. */
  function SpanEnd(s: string, k: nat): (e: nat)
    ensures k <= e
    ensures e > k ==> e <= |s|
    ensures forall j :: k <= j < e ==> j < |s| && s[j] != '_' && s[j] != '\0'
    ensures At(s, e) == '_' || At(s, e) == '\0'
    decreases |s| - k
  {
    if At(s, k) == '_' || At(s, k) == '\0' then k else SpanEnd(s, k + 1)
  }

  /** The largest index in [lo, k] holding a non-digit: where a backward
      scan over a digit run stops. */
  function LastNonDigit(s: string, lo: nat, k: nat): (j: nat)
    requires lo <= k < |s| && !IsDigit(s[lo])
    ensures lo <= j <= k && !IsDigit(s[j])
    ensures forall i :: j < i <= k ==> IsDigit(s[i])
    decreases k
  {
    if !IsDigit(s[k]) then k else LastNonDigit(s, lo, k - 1)
  }

  /** Where the scan goes on once a token ended at q: one delimiting '_' is
      skipped. */
  function Resume(s: string, q: nat): nat
  {
    if At(s, q) == '_' then q + 1 else q
  }

  /** Some byte after the first of s[p..e] is neither a lower-case letter
      nor a digit. */
  predicate BadSpan(s: string, p: nat, e: nat)
    requires p < e <= |s|
  {
    exists k :: p < k < e && !NameChar(s[k])
  }

  /** The multi-letter token spanning s[p..e]: malformed on a bad byte;
      otherwise the version suffix is taken off its end, reading backward. */
  function MultiToken(s: string, p: nat, e: nat): Token
    requires p < e <= |s| && IsMultiStart(s[p])
  {
    if BadSpan(s, p, e) then Malformed
    else if !IsDigit(s[e - 1]) then Multi(s[p..e], UintMax, 0)
    else TrailingVersion(s, p, LastNonDigit(s, p, e - 1))
  }

  /** The token whose trailing digit run starts just after index e1: that
      run is the major, unless a 'p' at e1 follows another digit run, in
      which case the two runs are major and minor. */
  function TrailingVersion(s: string, p: nat, e1: nat): Token
    requires p <= e1 < |s| && IsMultiStart(s[p])
  {
    var major := DecimalOr(s, e1 + 1, UintMax);
    if !(s[e1] == 'p' && IsDigit(At(s, e1 - 1))) then Multi(s[p..e1 + 1], major, 0)
    else LeadingMajor(s, p, LastNonDigit(s, p, e1 - 1), major)
  }

  /** The name ends at e2; the run after it is the major, and what was read
      as the major becomes the minor. A major that does not convert keeps
      the minor's value. */
  function LeadingMajor(s: string, p: nat, e2: nat, minor: nat): Token
    requires p <= e2 < |s|
  {
    Multi(s[p..e2 + 1], DecimalOr(s, e2 + 1, minor), minor)
  }

  /** The single-letter token at p and its version, read forward:
      <digits>[p<digits>]; a 'p' without a digit after it is left for the
      next token. */
  function SingleToken(s: string, p: nat): (r: Scanned)
    requires p < |s|
    ensures r.token.Single? && r.token.letter == s[p] && p < r.next
  {
    var q := p + 1;
    if !IsDigit(At(s, q)) then Scanned(Single(s[p], UintMax, 0), Resume(s, q))
    else
      var major := DecimalOr(s, q, UintMax);
      var q1 := DigitsEnd(s, q);
      if At(s, q1) != 'p' || !IsDigit(At(s, q1 + 1)) then
        Scanned(Single(s[p], major, 0), Resume(s, q1))
      else
        Scanned(Single(s[p], major, DecimalOr(s, q1 + 1, 0)), Resume(s, DigitsEnd(s, q1 + 1)))
  }

  /** One step of the scan, from the token starting at p. */
  function NextToken(s: string, p: nat): (r: Scanned)
    requires p < |s|
    ensures p < r.next <= |s|
  {
    if IsQemuSu(s, p) then Scanned(QemuSu, Resume(s, p + 2))
    else if IsMultiStart(s[p]) then
      var e := SpanEnd(s, p + 1);
      Scanned(MultiToken(s, p, e), Resume(s, e))
    else if !IsLower(s[p]) then Scanned(Malformed, Resume(s, p + 1))
    else SingleToken(s, p)
  }

  /** All tokens from p up to the terminator, in order. */
  function Tokens(s: string, p: nat): seq<Token>
    decreases |s| - p
  {
    if At(s, p) == '\0' then []
    else
      var r := NextToken(s, p);
      [r.token] + Tokens(s, r.next)
  }

  /** A span is dropped exactly when it holds a bad byte; otherwise the
      name is a non-empty prefix of the span. */
  lemma MultiTokenShape(s: string, p: nat, e: nat)
    requires p < e <= |s| && IsMultiStart(s[p])
    ensures MultiToken(s, p, e).Malformed? <==> BadSpan(s, p, e)
    ensures var t := MultiToken(s, p, e);
      t.Multi? ==> 0 < |t.name| <= e - p && t.name == s[p..p + |t.name|]
  {
  }

  /** Every token consumes at least one byte, so there are no more tokens
      than bytes left. */
  lemma {:induction false} TokensBound(s: string, p: nat)
    requires p <= |s|
    ensures |Tokens(s, p)| <= |s| - p
    decreases |s| - p
  {
    if At(s, p) != '\0' {
      TokensBound(s, NextToken(s, p).next);
    }
  }

  // ---------------------------------------------------------------------
  // An independent description of well-formed input: extensions rendered
  // in the naming convention of the RISC-V unprivileged ISA manual.

  datatype Version = Unversioned | Major(major: nat) | MajorMinor(major: nat, minor: nat)

  datatype Extension = Letter(letter: char, version: Version) | Named(name: string, version: Version)

  function VersionSuffix(v: Version): string
  {
    match v
    case Unversioned => ""
    case Major(m) => Dec(m)
    case MajorMinor(m, n) => Dec(m) + "p" + Dec(n)
  }

  function MajorOf(v: Version): nat
  {
    match v
    case Unversioned => UintMax
    case Major(m) => m
    case MajorMinor(m, _) => m
  }

  function MinorOf(v: Version): nat
  {
    if v.MajorMinor? then v.minor else 0
  }

  predicate ValidVersion(v: Version)
  {
    match v
    case Unversioned => true
    case Major(m) => m <= UintMax
    case MajorMinor(m, n) => m <= UintMax && n <= UintMax
  }

  /** A multi-letter name the scan reads back unchanged: it starts with
      s, x or z (but not "su"), uses lower-case letters and digits, does not
      end in a digit, and, when a bare major follows, does not end in
      <digit>p (which would read as a major/minor pair). */
  predicate ValidName(name: string, v: Version)
  {
    && NameShape(name)
    && (v.Major? ==> NoPairEnding(name))
  }

  /** The name does not end in <digit>p. */
  predicate NoPairEnding(name: string)
  {
    !(|name| >= 2 && name[|name| - 1] == 'p' && IsDigit(name[|name| - 2]))
  }

  predicate NameShape(name: string)
  {
    && |name| >= 1
    && IsMultiStart(name[0])
    && !(name[0] == 's' && At(name, 1) == 'u')
    && (forall i :: 0 <= i < |name| ==> NameChar(name[i]))
    && !IsDigit(name[|name| - 1])
  }

  predicate ValidExtension(x: Extension)
  {
    ValidVersion(x.version) &&
    match x
    case Letter(c, _) => IsLower(c) && !IsMultiStart(c)
    case Named(name, v) => ValidName(name, v)
  }

  function Encode(x: Extension): string
  {
    match x
    case Letter(c, v) => [c] + VersionSuffix(v)
    case Named(name, v) => name + VersionSuffix(v)
  }

  /** Extensions written one after another, separated by '_'. */
  function Render(xs: seq<Extension>): string
  {
    if |xs| == 0 then ""
    else if |xs| == 1 then Encode(xs[0])
    else Encode(xs[0]) + "_" + Render(xs[1..])
  }

  /** The token the scan should produce for an extension. */
  function Expect(x: Extension): Token
  {
    match x
    case Letter(c, v) => Single(c, MajorOf(v), MinorOf(v))
    case Named(name, v) => Multi(name, MajorOf(v), MinorOf(v))
  }

  function ExpectAll(xs: seq<Extension>): seq<Token>
  {
    if xs == [] then [] else [Expect(xs[0])] + ExpectAll(xs[1..])
  }

  /** A token is delimited by a following '_' or by the end of the string. */
  predicate Delimits(rest: string)
  {
    At(rest, 0) == '_' || At(rest, 0) == '\0'
  }

  /** Where the forward parse of a single letter's version v stops at q:
      the byte at q is no digit, and after a bare major it is no 'p' with a
      digit after it (that would start a minor). Whatever is there is the
      next token's first byte, or its '_'. */
  predicate SingleEnds(s: string, q: nat, v: Version)
  {
    !IsDigit(At(s, q)) && (v.Major? ==> !(At(s, q) == 'p' && IsDigit(At(s, q + 1))))
  }

  // ---------------------------------------------------------------------
  // Lemmas

  lemma {:induction false} SpanEndAt(s: string, k: nat, j: nat)
    requires k <= j <= |s|
    requires forall i :: k <= i < j ==> s[i] != '_' && s[i] != '\0'
    requires At(s, j) == '_' || At(s, j) == '\0'
    ensures SpanEnd(s, k) == j
    decreases j - k
  {
    if k < j {
      SpanEndAt(s, k + 1, j);
    }
  }

  lemma {:induction false} LastNonDigitAt(s: string, lo: nat, k: nat, j: nat)
    requires lo <= j <= k < |s| && !IsDigit(s[lo]) && !IsDigit(s[j])
    requires forall i :: j < i <= k ==> IsDigit(s[i])
    ensures LastNonDigit(s, lo, k) == j
    decreases k
  {
    if j < k {
      LastNonDigitAt(s, lo, k - 1, j);
    }
  }

  /** The bytes of a version suffix are digits and 'p'. */
  lemma SuffixChars(v: Version)
    ensures forall i :: 0 <= i < |VersionSuffix(v)| ==>
      IsDigit(VersionSuffix(v)[i]) || VersionSuffix(v)[i] == 'p'
  {
  }

  /** A span with no version digits at its end is all name. */
  lemma MultiTokenUnversioned(s: string, p: nat, e: nat)
    requires p < e <= |s| && IsMultiStart(s[p])
    requires forall k :: p < k < e ==> NameChar(s[k])
    requires !IsDigit(s[e - 1])
    ensures MultiToken(s, p, e) == Multi(s[p..e], UintMax, 0)
  {
  }

  /** A span ending in a digit run s[j..e] not read as a pair: the run is
      the major version. */
  lemma MultiTokenMajor(s: string, p: nat, j: nat, e: nat, m: nat, name: string)
    requires p < j < e <= |s| && IsMultiStart(s[p]) && s[p..j] == name
    requires forall k :: p < k < e ==> NameChar(s[k])
    requires !IsDigit(s[j - 1]) && forall k :: j <= k < e ==> IsDigit(s[k])
    requires !(s[j - 1] == 'p' && IsDigit(At(s, j - 2)))
    requires DecimalPart(s, j) == Ok(m)
    ensures MultiToken(s, p, e) == Multi(name, m, 0)
  {
    MultiTokenTrailing(s, p, j - 1, e);
    TrailingMajor(s, p, j, m);
  }

  lemma TrailingMajor(s: string, p: nat, j: nat, m: nat)
    requires p < j < |s| && IsMultiStart(s[p])
    requires !(s[j - 1] == 'p' && IsDigit(At(s, j - 2)))
    requires DecimalPart(s, j) == Ok(m)
    ensures TrailingVersion(s, p, j - 1) == Multi(s[p..j], m, 0)
  {
  }

  /** A span ending in <digits>p<digits> = s[j..k] 'p' s[k+1..e]: the two runs
      are the major and minor versions. */
  lemma MultiTokenPair(s: string, p: nat, j: nat, k: nat, e: nat, mj: nat, mn: nat, name: string)
    requires p < j < k && k + 1 < e <= |s| && IsMultiStart(s[p]) && s[p..j] == name
    requires forall i :: p < i < e ==> NameChar(s[i])
    requires !IsDigit(s[j - 1]) && forall i :: j <= i < k ==> IsDigit(s[i])
    requires s[k] == 'p' && forall i :: k < i < e ==> IsDigit(s[i])
    requires DecimalPart(s, j) == Ok(mj) && DecimalPart(s, k + 1) == Ok(mn)
    ensures MultiToken(s, p, e) == Multi(name, mj, mn)
  {
    MultiTokenTrailing(s, p, k, e);
    TrailingPair(s, p, j, k, mn);
  }

  /** A clean span ending in a digit run after index k is read from k. */
  lemma MultiTokenTrailing(s: string, p: nat, k: nat, e: nat)
    requires p <= k && k + 1 < e <= |s| && IsMultiStart(s[p])
    requires forall i :: p < i < e ==> NameChar(s[i])
    requires !IsDigit(s[k]) && forall i :: k < i < e ==> IsDigit(s[i])
    ensures MultiToken(s, p, e) == TrailingVersion(s, p, k)
  {
    LastNonDigitAt(s, p, e - 1, k);
    assert !BadSpan(s, p, e);
  }

  /** <digits>p<digits> before the end: the leading run is the major. */
  lemma TrailingPair(s: string, p: nat, j: nat, k: nat, mn: nat)
    requires p < j < k < |s| && IsMultiStart(s[p])
    requires !IsDigit(s[j - 1]) && forall i :: j <= i < k ==> IsDigit(s[i])
    requires s[k] == 'p' && DecimalPart(s, k + 1) == Ok(mn)
    ensures TrailingVersion(s, p, k) == LeadingMajor(s, p, j - 1, mn)
  {
    LastNonDigitAt(s, p, k - 1, j - 1);
    assert IsDigit(At(s, k - 1));
  }

  /** s holds t from index k on. */
  predicate Holds(s: string, k: nat, t: string)
  {
    k + |t| <= |s| && forall i :: 0 <= i < |t| ==> s[k + i] == t[i]
  }

  lemma HoldsSplit(s: string, k: nat, a: string, b: string)
    requires Holds(s, k, a + b)
    ensures Holds(s, k, a) && Holds(s, k + |a|, b)
  {
    forall i | 0 <= i < |a| ensures s[k + i] == a[i] {
      assert (a + b)[i] == a[i];
    }
    forall i | 0 <= i < |b| ensures s[k + |a| + i] == b[i] {
      assert s[k + (|a| + i)] == (a + b)[|a| + i];
    }
  }

  lemma HoldsSlice(s: string, k: nat, t: string)
    requires Holds(s, k, t)
    ensures s[k..k + |t|] == t
  {
    forall i | 0 <= i < |t| ensures s[k..k + |t|][i] == t[i] {
      assert s[k..k + |t|][i] == s[k + i];
    }
  }

  lemma HoldsDigits(s: string, k: nat, ds: string)
    requires Holds(s, k, ds) && AllDigits(ds)
    ensures forall i :: k <= i < k + |ds| ==> IsDigit(s[i])
  {
    forall i | k <= i < k + |ds| ensures IsDigit(s[i]) {
      assert s[k + (i - k)] == ds[i - k];
    }
  }

  lemma HoldsIn(pre: string, t: string, rest: string)
    ensures Holds(pre + t + rest, |pre|, t)
    ensures At(pre + t + rest, |pre| + |t|) == At(rest, 0)
  {
    var s := pre + t + rest;
    forall i | 0 <= i < |t| ensures s[|pre| + i] == t[i] {
    }
  }

  /** The span of a placed, well-formed name and suffix is the whole of them. */
  lemma MultiSpan(s: string, p: nat, name: string, suf: string)
    requires NameShape(name) && Holds(s, p, name) && Holds(s, p + |name|, suf)
    requires forall i :: 0 <= i < |suf| ==> IsDigit(suf[i]) || suf[i] == 'p'
    requires Delimits([At(s, p + |name| + |suf|)])
    ensures var e := p + |name| + |suf|;
      && !IsQemuSu(s, p) && IsMultiStart(s[p])
      && SpanEnd(s, p + 1) == e
      && (forall k :: p < k < e ==> NameChar(s[k]))
  {
    NotQemuSuAt(s, p, name, suf);
    HeldNameChars(s, p, name, suf);
    SpanEndAt(s, p + 1, p + |name| + |suf|);
  }

  /** Every byte after the first of a placed name and suffix is a name byte,
      so none of them ends the span. */
  lemma HeldNameChars(s: string, p: nat, name: string, suf: string)
    requires NameShape(name) && Holds(s, p, name) && Holds(s, p + |name|, suf)
    requires forall i :: 0 <= i < |suf| ==> IsDigit(suf[i]) || suf[i] == 'p'
    ensures forall k :: p < k < p + |name| + |suf| ==> NameChar(s[k]) && s[k] != '_' && s[k] != '\0'
  {
    var n := |name|;
    forall k | p < k < p + n + |suf| ensures NameChar(s[k]) && s[k] != '_' && s[k] != '\0' {
      if k < p + n {
        assert s[p + (k - p)] == name[k - p];
      } else {
        assert s[p + n + (k - p - n)] == suf[k - p - n];
      }
    }
  }

  lemma NotQemuSuAt(s: string, p: nat, name: string, suf: string)
    requires NameShape(name) && Holds(s, p, name) && Holds(s, p + |name|, suf)
    requires forall i :: 0 <= i < |suf| ==> IsDigit(suf[i]) || suf[i] == 'p'
    requires Delimits([At(s, p + |name| + |suf|)])
    ensures s[p] == name[0] && !IsQemuSu(s, p)
  {
    assert s[p + 0] == name[0];
    if |name| >= 2 {
      assert s[p + 1] == name[1];
    } else if |suf| > 0 {
      assert s[p + 1 + 0] == suf[0];
    }
  }

  lemma NextTokenMulti(s: string, p: nat)
    requires p < |s| && !IsQemuSu(s, p) && IsMultiStart(s[p])
    ensures NextToken(s, p) == Scanned(MultiToken(s, p, SpanEnd(s, p + 1)), Resume(s, SpanEnd(s, p + 1)))
  {
  }

  /** What a placed well-formed name says about the bytes around its end. */
  lemma NameHeld(s: string, p: nat, name: string)
    requires NameShape(name) && Holds(s, p, name)
    ensures var e := p + |name|;
      && s[p..e] == name && IsMultiStart(s[p]) && !IsDigit(s[e - 1])
      && (NoPairEnding(name) ==> !(s[e - 1] == 'p' && IsDigit(At(s, e - 2))))
  {
    var n := |name|;
    assert s[p + 0] == name[0];
    assert s[p + (n - 1)] == name[n - 1];
    if n >= 2 {
      assert s[p + (n - 2)] == name[n - 2];
    }
    HoldsSlice(s, p, name);
  }

  /** A version pair placed at k: its major digits, the 'p', its minor digits. */
  lemma PairHeld(s: string, k: nat, d1: string, d2: string)
    requires Holds(s, k, d1 + "p" + d2)
    ensures Holds(s, k, d1) && s[k + |d1|] == 'p' && Holds(s, k + |d1| + 1, d2)
  {
    HoldsSplit(s, k, d1 + "p", d2);
    HoldsSplit(s, k, d1, "p");
    assert s[k + |d1| + 0] == "p"[0];
  }

  lemma MultiUnversionedAt(s: string, p: nat, name: string)
    requires NameShape(name) && Holds(s, p, name)
    requires forall k :: p < k < p + |name| ==> NameChar(s[k])
    ensures MultiToken(s, p, p + |name|) == Multi(name, UintMax, 0)
  {
    NameHeld(s, p, name);
    MultiTokenUnversioned(s, p, p + |name|);
  }

  lemma MultiMajorAt(s: string, p: nat, name: string, ds: string, m: nat)
    requires NameShape(name) && NoPairEnding(name) && |ds| > 0 && AllDigits(ds)
    requires Holds(s, p, name) && Holds(s, p + |name|, ds)
    requires forall k :: p < k < p + |name| + |ds| ==> NameChar(s[k])
    requires DecimalPart(s, p + |name|) == Ok(m)
    ensures MultiToken(s, p, p + |name| + |ds|) == Multi(name, m, 0)
  {
    assert IsMultiStart(s[p]) && s[p..p + |name|] == name && !IsDigit(s[p + |name| - 1])
      && !(s[p + |name| - 1] == 'p' && IsDigit(At(s, p + |name| - 2)))
      && (forall k :: p + |name| <= k < p + |name| + |ds| ==> IsDigit(s[k])) by {
      NameHeld(s, p, name);
      HoldsDigits(s, p + |name|, ds);
    }
    MultiTokenMajor(s, p, p + |name|, p + |name| + |ds|, m, name);
  }

  lemma MultiPairAt(s: string, p: nat, name: string, d1: string, d2: string, mj: nat, mn: nat)
    requires NameShape(name) && |d1| > 0 && AllDigits(d1) && |d2| > 0 && AllDigits(d2)
    requires Holds(s, p, name) && Holds(s, p + |name|, d1)
    requires p + |name| + |d1| < |s| && s[p + |name| + |d1|] == 'p'
    requires Holds(s, p + |name| + |d1| + 1, d2)
    requires forall k :: p < k < p + |name| + |d1| + 1 + |d2| ==> NameChar(s[k])
    requires DecimalPart(s, p + |name|) == Ok(mj)
    requires DecimalPart(s, p + |name| + |d1| + 1) == Ok(mn)
    ensures MultiToken(s, p, p + |name| + |d1| + 1 + |d2|) == Multi(name, mj, mn)
  {
    NameHeld(s, p, name);
    HoldsDigits(s, p + |name|, d1);
    HoldsDigits(s, p + |name| + |d1| + 1, d2);
    MultiTokenPair(s, p, p + |name|, p + |name| + |d1|, p + |name| + |d1| + 1 + |d2|, mj, mn, name);
  }

  /** A well-formed multi-letter extension placed at p and delimited by '_'
      or the terminator scans back to its own name and version. */
  lemma MultiAt(s: string, p: nat, name: string, v: Version)
    requires ValidName(name, v) && ValidVersion(v)
    requires Holds(s, p, name + VersionSuffix(v))
    requires Delimits([At(s, p + |name| + |VersionSuffix(v)|)])
    ensures NextToken(s, p) == Scanned(Multi(name, MajorOf(v), MinorOf(v)),
      Resume(s, p + |name| + |VersionSuffix(v)|))
  {
    HoldsSplit(s, p, name, VersionSuffix(v));
    SuffixChars(v);
    MultiSpan(s, p, name, VersionSuffix(v));
    NextTokenMulti(s, p);
    MultiTokenAt(s, p, name, v);
  }

  /** The span of a placed, well-formed name and version is read back as
      that name and version. */
  lemma MultiTokenAt(s: string, p: nat, name: string, v: Version)
    requires ValidName(name, v) && ValidVersion(v)
    requires Holds(s, p, name) && Holds(s, p + |name|, VersionSuffix(v))
    requires Delimits([At(s, p + |name| + |VersionSuffix(v)|)])
    requires forall k :: p < k < p + |name| + |VersionSuffix(v)| ==> NameChar(s[k])
    ensures p < p + |name| + |VersionSuffix(v)| <= |s| && IsMultiStart(s[p])
    ensures MultiToken(s, p, p + |name| + |VersionSuffix(v)|) == Multi(name, MajorOf(v), MinorOf(v))
  {
    NameHeld(s, p, name);
    match v
    case Unversioned =>
      MultiUnversionedAt(s, p, name);
    case Major(m) =>
      DecSpells(m);
      MultiMajorCase(s, p, name, Dec(m), m);
    case MajorMinor(mj, mn) =>
      DecSpells(mj);
      DecSpells(mn);
      assert |VersionSuffix(v)| == |Dec(mj)| + 1 + |Dec(mn)|;
      MultiPairCase(s, p, name, Dec(mj), Dec(mn), mj, mn);
      assert p + |name| + |VersionSuffix(v)| == p + |name| + |Dec(mj)| + 1 + |Dec(mn)|;
  }

  lemma MultiMajorCase(s: string, p: nat, name: string, ds: string, m: nat)
    requires NameShape(name) && NoPairEnding(name) && Spells(ds, m) && m <= UintMax
    requires Holds(s, p, name) && Holds(s, p + |name|, ds)
    requires Delimits([At(s, p + |name| + |ds|)])
    requires forall k :: p < k < p + |name| + |ds| ==> NameChar(s[k])
    ensures MultiToken(s, p, p + |name| + |ds|) == Multi(name, m, 0)
  {
    DecimalPartAt(s, p + |name|, ds, m);
    MultiMajorAt(s, p, name, ds, m);
  }

  lemma MultiPairCase(s: string, p: nat, name: string, d1: string, d2: string, mj: nat, mn: nat)
    requires NameShape(name) && Spells(d1, mj) && Spells(d2, mn) && mj <= UintMax && mn <= UintMax
    requires Holds(s, p, name) && Holds(s, p + |name|, d1 + "p" + d2)
    requires forall k :: p < k < p + |name| + |d1| + 1 + |d2| ==> NameChar(s[k])
    requires Delimits([At(s, p + |name| + |d1| + 1 + |d2|)])
    ensures MultiToken(s, p, p + |name| + |d1| + 1 + |d2|) == Multi(name, mj, mn)
  {
    var j := p + |name|;
    PairHeld(s, j, d1, d2);
    DecimalPartAt(s, j, d1, mj);
    DecimalPartAt(s, j + |d1| + 1, d2, mn);
    MultiPairAt(s, p, name, d1, d2, mj, mn);
  }

  lemma SingleMajorAt(s: string, p: nat, ds: string, m: nat)
    requires |ds| > 0 && AllDigits(ds) && Holds(s, p + 1, ds)
    requires IsLower(s[p]) && !IsMultiStart(s[p]) && !IsQemuSu(s, p)
    requires SingleEnds(s, p + 1 + |ds|, Major(m))
    requires DecimalPart(s, p + 1) == Ok(m)
    ensures NextToken(s, p) == Scanned(Single(s[p], m, 0), Resume(s, p + 1 + |ds|))
  {
    HoldsDigits(s, p + 1, ds);
    DigitsEndAt(s, p + 1, p + 1 + |ds|);
  }

  lemma SinglePairAt(s: string, p: nat, d1: string, d2: string, mj: nat, mn: nat)
    requires |d1| > 0 && AllDigits(d1) && |d2| > 0 && AllDigits(d2)
    requires Holds(s, p + 1, d1) && p + 1 + |d1| < |s| && s[p + 1 + |d1|] == 'p'
    requires Holds(s, p + 2 + |d1|, d2)
    requires IsLower(s[p]) && !IsMultiStart(s[p]) && !IsQemuSu(s, p)
    requires !IsDigit(At(s, p + 2 + |d1| + |d2|))
    requires DecimalPart(s, p + 1) == Ok(mj)
    requires DecimalPart(s, p + 2 + |d1|) == Ok(mn)
    ensures NextToken(s, p) == Scanned(Single(s[p], mj, mn), Resume(s, p + 2 + |d1| + |d2|))
  {
    var q1 := p + 1 + |d1|;
    HoldsDigits(s, p + 1, d1);
    HoldsDigits(s, q1 + 1, d2);
    DigitsEndAt(s, p + 1, q1);
    DigitsEndAt(s, q1 + 1, q1 + 1 + |d2|);
  }

  /** A well-formed single-letter extension placed at p scans forward to
      its letter and version, whether a '_', the terminator or the next
      extension follows it, as long as what follows cannot extend the
      version. */
  lemma SingleAt(s: string, p: nat, c: char, v: Version)
    requires IsLower(c) && !IsMultiStart(c) && ValidVersion(v)
    requires p < |s| && s[p] == c && Holds(s, p + 1, VersionSuffix(v))
    requires SingleEnds(s, p + 1 + |VersionSuffix(v)|, v)
    ensures NextToken(s, p) == Scanned(Single(c, MajorOf(v), MinorOf(v)),
      Resume(s, p + 1 + |VersionSuffix(v)|))
  {
    assert !IsQemuSu(s, p);
    match v
    case Unversioned =>
      SingleUnversionedAt(s, p);
    case Major(m) =>
      SingleMajorCase(s, p, m);
    case MajorMinor(mj, mn) =>
      SinglePairVersion(s, p, mj, mn);
  }

  lemma SinglePairVersion(s: string, p: nat, mj: nat, mn: nat)
    requires mj <= UintMax && mn <= UintMax && Holds(s, p + 1, VersionSuffix(MajorMinor(mj, mn)))
    requires p < |s| && IsLower(s[p]) && !IsMultiStart(s[p]) && !IsQemuSu(s, p)
    requires !IsDigit(At(s, p + 1 + |VersionSuffix(MajorMinor(mj, mn))|))
    ensures NextToken(s, p) == Scanned(Single(s[p], mj, mn), Resume(s, p + 1 + |VersionSuffix(MajorMinor(mj, mn))|))
  {
    DecSpells(mj);
    DecSpells(mn);
    assert VersionSuffix(MajorMinor(mj, mn)) == Dec(mj) + "p" + Dec(mn);
    SinglePairCase(s, p, Dec(mj), Dec(mn), mj, mn);
  }

  lemma SingleMajorCase(s: string, p: nat, m: nat)
    requires m <= UintMax && Holds(s, p + 1, VersionSuffix(Major(m)))
    requires p < |s| && IsLower(s[p]) && !IsMultiStart(s[p]) && !IsQemuSu(s, p)
    requires SingleEnds(s, p + 1 + |VersionSuffix(Major(m))|, Major(m))
    ensures NextToken(s, p) == Scanned(Single(s[p], m, 0), Resume(s, p + 1 + |VersionSuffix(Major(m))|))
  {
    assert VersionSuffix(Major(m)) == Dec(m);
    DecSpells(m);
    DecimalPartAt(s, p + 1, Dec(m), m);
    SingleMajorAt(s, p, Dec(m), m);
  }

  lemma SingleUnversionedAt(s: string, p: nat)
    requires p < |s| && IsLower(s[p]) && !IsMultiStart(s[p]) && !IsQemuSu(s, p)
    requires !IsDigit(At(s, p + 1))
    ensures NextToken(s, p) == Scanned(Single(s[p], UintMax, 0), Resume(s, p + 1))
  {
  }

  lemma SinglePairCase(s: string, p: nat, d1: string, d2: string, mj: nat, mn: nat)
    requires Spells(d1, mj) && Spells(d2, mn) && mj <= UintMax && mn <= UintMax
    requires p < |s| && IsLower(s[p]) && !IsMultiStart(s[p]) && !IsQemuSu(s, p)
    requires Holds(s, p + 1, d1 + "p" + d2)
    requires !IsDigit(At(s, p + 2 + |d1| + |d2|))
    ensures NextToken(s, p) == Scanned(Single(s[p], mj, mn), Resume(s, p + 2 + |d1| + |d2|))
  {
    PairHeld(s, p + 1, d1, d2);
    DecimalPartAt(s, p + 1, d1, mj);
    DecimalPartAt(s, p + 2 + |d1|, d2, mn);
    SinglePairAt(s, p, d1, d2, mj, mn);
  }

  /** The scan reads a placed single-letter extension and goes on after
      it, with the next extension or after its '_'. */
  lemma TokensSingle(s: string, p: nat, c: char, v: Version)
    requires IsLower(c) && !IsMultiStart(c) && ValidVersion(v)
    requires p < |s| && s[p] == c && Holds(s, p + 1, VersionSuffix(v))
    requires SingleEnds(s, p + 1 + |VersionSuffix(v)|, v)
    ensures Tokens(s, p) == [Single(c, MajorOf(v), MinorOf(v))] + Tokens(s, Resume(s, p + 1 + |VersionSuffix(v)|))
  {
    SingleAt(s, p, c, v);
  }

  /** A single letter's major followed by a 'p' with no digit after it: the
      token ends before the 'p', which is left for the next step, and that
      step reads it as a letter of its own. */
  lemma SingleBareP(s: string, p: nat, ds: string)
    requires p < |s| && IsLower(s[p]) && !IsMultiStart(s[p])
    requires |ds| > 0 && AllDigits(ds) && Holds(s, p + 1, ds)
    requires At(s, p + 1 + |ds|) == 'p' && !IsDigit(At(s, p + 2 + |ds|))
    ensures NextToken(s, p) == Scanned(Single(s[p], DecimalOr(s, p + 1, UintMax), 0), p + 1 + |ds|)
    ensures NextToken(s, p + 1 + |ds|) == Scanned(Single('p', UintMax, 0), Resume(s, p + 2 + |ds|))
  {
    HoldsDigits(s, p + 1, ds);
    DigitsEndAt(s, p + 1, p + 1 + |ds|);
  }

  /** Versioned letters written one after another with no '_' between
      them: each letter keeps its own major and minor. */
  lemma VersionsTogether()
    ensures Tokens("rv64i2p0m2p0", 4) == [Single('i', 2, 0), Single('m', 2, 0)]
  {
    var s := "rv64i2p0m2p0";
    TogetherFirst(s);
    TogetherSecond(s);
  }

  lemma TogetherFirst(s: string)
    requires s == "rv64i2p0m2p0"
    ensures Tokens(s, 4) == [Single('i', 2, 0)] + Tokens(s, 8)
  {
    assert VersionSuffix(MajorMinor(2, 0)) == "2p0";
    SinglePairVersion(s, 4, 2, 0);
  }

  lemma TogetherSecond(s: string)
    requires s == "rv64i2p0m2p0"
    ensures Tokens(s, 8) == [Single('m', 2, 0)]
  {
    assert VersionSuffix(MajorMinor(2, 0)) == "2p0";
    SinglePairVersion(s, 8, 2, 0);
  }

  /** The 'p' after i's major has no digit after it, so it marks no minor:
      it is read as a letter of its own. */
  lemma BarePString()
    ensures Tokens("rv64i2pm", 4) == [Single('i', 2, 0), Single('p', UintMax, 0), Single('m', UintMax, 0)]
  {
    var s := "rv64i2pm";
    SingleBareP(s, 4, "2");
    assert DecimalOr(s, 5, UintMax) == 2 by { DigitsEndAt(s, 5, 6); }
    assert Tokens(s, 7) == [Single('m', UintMax, 0)];
  }

  /** A well-formed extension placed at p and delimited by '_' or the
      terminator is read back as the token it names. */
  lemma EncodedAt(s: string, p: nat, x: Extension)
    requires ValidExtension(x) && Holds(s, p, Encode(x))
    requires Delimits([At(s, p + |Encode(x)|)])
    ensures At(s, p) != '\0'
    ensures NextToken(s, p) == Scanned(Expect(x), Resume(s, p + |Encode(x)|))
  {
    match x
    case Letter(c, v) =>
      HoldsSplit(s, p, [c], VersionSuffix(v));
      assert s[p + 0] == [c][0];
      SingleAt(s, p, c, v);
    case Named(name, v) =>
      assert s[p + 0] == (name + VersionSuffix(v))[0];
      MultiAt(s, p, name, v);
  }

  /** The scan reads a placed, delimited extension and goes on after it. */
  lemma TokensEncoded(s: string, p: nat, x: Extension)
    requires ValidExtension(x) && Holds(s, p, Encode(x))
    requires Delimits([At(s, p + |Encode(x)|)])
    ensures Tokens(s, p) == [Expect(x)] + Tokens(s, Resume(s, p + |Encode(x)|))
  {
    EncodedAt(s, p, x);
  }

  /** s holds t from index p on, and its terminator right after t. */
  predicate HeldLast(s: string, p: nat, t: string)
  {
    Holds(s, p, t) && At(s, p + |t|) == '\0'
  }

  /** Two strings held at p with a '_' between them. */
  lemma HoldsSep(s: string, p: nat, a: string, b: string)
    requires HeldLast(s, p, a + "_" + b)
    ensures Holds(s, p, a) && p + |a| < |s| && s[p + |a|] == '_'
    ensures HeldLast(s, p + |a| + 1, b)
  {
    HoldsSplit(s, p, a + "_", b);
    HoldsSplit(s, p, a, "_");
    assert s[p + |a| + 0] == "_"[0];
  }

  /** Extensions rendered at p: the first one, its '_', then the others. */
  lemma RenderSplit(s: string, p: nat, xs: seq<Extension>)
    requires |xs| > 1 && HeldLast(s, p, Render(xs))
    ensures Holds(s, p, Encode(xs[0])) && p + |Encode(xs[0])| < |s| && s[p + |Encode(xs[0])|] == '_'
    ensures HeldLast(s, p + |Encode(xs[0])| + 1, Render(xs[1..]))
  {
    assert Render(xs) == Encode(xs[0]) + "_" + Render(xs[1..]);
    HoldsSep(s, p, Encode(xs[0]), Render(xs[1..]));
  }

  lemma TokensEnd(s: string, p: nat)
    requires At(s, p) == '\0'
    ensures Tokens(s, p) == []
  {
  }

  /** Every extension of xs is well formed. */
  predicate AllValid(xs: seq<Extension>)
  {
    |xs| == 0 || (ValidExtension(xs[0]) && AllValid(xs[1..]))
  }

  lemma {:induction false} AllValidOf(xs: seq<Extension>)
    requires forall i :: 0 <= i < |xs| ==> ValidExtension(xs[i])
    ensures AllValid(xs)
  {
    if |xs| > 0 {
      assert forall i :: 0 <= i < |xs[1..]| ==> xs[1..][i] == xs[i + 1];
      AllValidOf(xs[1..]);
    }
  }

  /** The last extension of a rendering is the last token. */
  lemma TokensLast(s: string, p: nat, xs: seq<Extension>)
    requires |xs| == 1 && AllValid(xs) && HeldLast(s, p, Render(xs))
    ensures Tokens(s, p) == ExpectAll(xs)
  {
    var x := xs[0];
    assert Render(xs) == Encode(x);
    TokensEncoded(s, p, x);
    TokensEnd(s, p + |Encode(x)|);
    assert ExpectAll(xs) == [Expect(x)];
  }

  /** The first of several rendered extensions is the first token, and the
      scan goes on at the next one. */
  lemma TokensFirst(s: string, p: nat, xs: seq<Extension>)
    requires |xs| > 1 && AllValid(xs) && HeldLast(s, p, Render(xs))
    ensures Tokens(s, p) == [Expect(xs[0])] + Tokens(s, p + |Encode(xs[0])| + 1)
    ensures HeldLast(s, p + |Encode(xs[0])| + 1, Render(xs[1..]))
    ensures AllValid(xs[1..])
    ensures ExpectAll(xs) == [Expect(xs[0])] + ExpectAll(xs[1..])
  {
    RenderSplit(s, p, xs);
    TokensEncoded(s, p, xs[0]);
    assert Resume(s, p + |Encode(xs[0])|) == p + |Encode(xs[0])| + 1;
  }

  /** Well-formed extensions rendered at p and followed by the terminator
      scan back to their tokens, in order. */
  lemma {:induction false} TokensAt(s: string, p: nat, xs: seq<Extension>)
    requires AllValid(xs) && HeldLast(s, p, Render(xs))
    ensures Tokens(s, p) == ExpectAll(xs)
    decreases |xs|
  {
    if |xs| == 0 {
      assert Render(xs) == "";
      TokensEnd(s, p);
      assert Tokens(s, p) == ExpectAll(xs);
    } else if |xs| == 1 {
      TokensLast(s, p, xs);
      assert Tokens(s, p) == ExpectAll(xs);
    } else {
      var q := p + |Encode(xs[0])| + 1;
      TokensFirst(s, p, xs);
      TokensAt(s, q, xs[1..]);
      assert Tokens(s, p) == ExpectAll(xs);
    }
  }

  /** Round trip: whatever precedes them, well-formed extensions written
      one after another with '_' between them scan back to exactly their
      tokens, in order. */
  lemma TokensOfRender(pre: string, xs: seq<Extension>)
    requires forall i :: 0 <= i < |xs| ==> ValidExtension(xs[i])
    ensures Tokens(pre + Render(xs), |pre|) == ExpectAll(xs)
  {
    AllValidOf(xs);
    HoldsIn(pre, Render(xs), "");
    assert pre + Render(xs) + "" == pre + Render(xs);
    assert At(pre + Render(xs), |pre| + |Render(xs)|) == '\0';
    TokensAt(pre + Render(xs), |pre|, xs);
  }

  /** pre, then mid, then t and the terminator. */
  lemma PlacedLast(pre: string, mid: string, t: string)
    ensures Holds(pre + mid + t, |pre|, mid)
    ensures HeldLast(pre + mid + t, |pre| + |mid|, t)
  {
    var s := pre + mid + t;
    forall i | 0 <= i < |mid| ensures s[|pre| + i] == mid[i] {
    }
    forall i | 0 <= i < |t| ensures s[|pre| + |mid| + i] == t[i] {
    }
  }

  /** A byte that cannot start a token, whatever follows it, is reported
      malformed on its own, and the scan goes on after it, past one '_'. */
  lemma MalformedSkipped(pre: string, c: char, rest: string)
    requires c != '\0' && !IsLower(c)
    ensures var s := pre + [c] + rest;
      Tokens(s, |pre|) == [Malformed] + Tokens(s, Resume(s, |pre| + 1))
  {
    var s := pre + [c] + rest;
    assert s[|pre|] == c;
    assert NextToken(s, |pre|) == Scanned(Malformed, Resume(s, |pre| + 1));
  }

  /** Bytes none of which can start a token, nor is a '_'. */
  predicate NonLetters(t: string)
  {
    forall i :: 0 <= i < |t| ==> t[i] != '\0' && t[i] != '_' && !IsLower(t[i])
  }

  /** One byte that cannot start a token: a dropped token. */
  lemma MalformedStep(s: string, p: nat, c: char)
    requires p < |s| && s[p] == c && c != '\0' && !IsLower(c)
    ensures Tokens(s, p) == [Malformed] + Tokens(s, Resume(s, p + 1))
  {
    assert NextToken(s, p) == Scanned(Malformed, Resume(s, p + 1));
  }

  /** n dropped tokens. */
  function Dropped(n: nat): seq<Token>
  {
    if n == 0 then [] else [Malformed] + Dropped(n - 1)
  }

  /** A run such as "IMA" in s[p..e] gives one malformed token per byte. */
  lemma {:induction false} MalformedRunAt(s: string, p: nat, e: nat)
    requires p < e <= |s|
    requires forall k :: p <= k < e ==> s[k] != '\0' && s[k] != '_' && !IsLower(s[k])
    ensures Tokens(s, p) == Dropped(e - p) + Tokens(s, Resume(s, e))
    decreases e - p
  {
    if p + 1 == e {
      MalformedLast(s, p, e);
    } else {
      MalformedRunAt(s, p + 1, e);
      MalformedCons(s, p, e, Tokens(s, Resume(s, e)));
    }
  }

  /** The last byte of a run. */
  lemma MalformedLast(s: string, p: nat, e: nat)
    requires p + 1 == e <= |s| && s[p] != '\0' && !IsLower(s[p])
    ensures Tokens(s, p) == Dropped(e - p) + Tokens(s, Resume(s, e))
  {
    MalformedStep(s, p, s[p]);
    assert Dropped(e - p) == [Malformed] + Dropped(0);
  }

  /** The first byte of a longer run, then the tokens of the others. */
  lemma MalformedCons(s: string, p: nat, e: nat, rest: seq<Token>)
    requires p + 1 < e <= |s|
    requires s[p] != '\0' && !IsLower(s[p]) && s[p + 1] != '_'
    requires Tokens(s, p + 1) == Dropped(e - (p + 1)) + rest
    ensures Tokens(s, p) == Dropped(e - p) + rest
  {
    MalformedStep(s, p, s[p]);
    assert Dropped(e - p) == [Malformed] + Dropped(e - (p + 1));
  }

  lemma MalformedRun(pre: string, t: string)
    requires |t| > 0 && NonLetters(t)
    ensures Tokens(pre + t, |pre|) == Dropped(|t|)
  {
    var s := pre + t;
    forall k | |pre| <= k < |s| ensures s[k] == t[k - |pre|] {
    }
    MalformedRunAt(s, |pre|, |s|);
    TokensEnd(s, |s|);
  }

  /** A multi-letter span holding a byte that is neither a lower-case letter
      nor a digit is dropped as a whole, and the scan goes on after it, past
      one '_'. */
  lemma BadSpanSkipped(pre: string, c: char, rest: string)
    requires IsMultiStart(c) && !IsQemuSu(pre + [c] + rest, |pre|)
    requires BadSpan(pre + [c] + rest, |pre|, SpanEnd(pre + [c] + rest, |pre| + 1))
    ensures var s := pre + [c] + rest;
      Tokens(s, |pre|) == [Malformed] + Tokens(s, Resume(s, SpanEnd(s, |pre| + 1)))
  {
    var s := pre + [c] + rest;
    assert s[|pre|] == c;
    assert NextToken(s, |pre|) == Scanned(Malformed, Resume(s, SpanEnd(s, |pre| + 1)));
  }

  /** Multi-letter names must be delimited: with no '_' between them,
      "zba" and "zbb" are read as one name "zbazbb". */
  lemma UndelimitedMerge()
    ensures Tokens("rv64zbazbb", 4) == [Multi("zbazbb", UintMax, 0)]
  {
    var s := "rv64zbazbb";
    SpanEndAt(s, 5, 10);
    assert !BadSpan(s, 4, 10);
    assert s[4..10] == "zbazbb";
    assert NextToken(s, 4) == Scanned(Multi("zbazbb", UintMax, 0), 10);
    TokensEnd(s, 10);
    assert Tokens(s, 4) == [Multi("zbazbb", UintMax, 0)] + Tokens(s, 10);
  }

  /** "zbA", a bad span, is dropped; the "zba" after it is read. */
  lemma MixedCaseSpan()
    ensures Tokens("rv64zbA_zba", 4) == [Malformed, Multi("zba", UintMax, 0)]
  {
    MixedCaseHead();
    ZbaTail();
  }

  lemma MixedCaseHead()
    ensures Tokens("rv64zbA_zba", 4) == [Malformed] + Tokens("rv64zbA_zba", 8)
  {
    var s := "rv64zbA_zba";
    assert s == "rv64" + ['z'] + "bA_zba";
    SpanEndAt(s, 5, 7);
    assert !NameChar(s[6]);
    BadSpanSkipped("rv64", 'z', "bA_zba");
  }

  lemma ZbaTail()
    ensures Tokens("rv64zbA_zba", 8) == [Multi("zba", UintMax, 0)]
  {
    var s := "rv64zbA_zba";
    var x := Named("zba", Unversioned);
    assert Encode(x) == "zba";
    assert Holds(s, 8, Encode(x));
    TokensEncoded(s, 8, x);
    TokensEnd(s, 11);
  }

  /** The "su" that QEMU appends after the letters, not preceded by '_', is
      skipped as a whole, whatever follows it. */
  lemma QemuSuSkipped(pre: string, rest: string)
    requires At(pre, |pre| - 1) != '_'
    ensures var s := pre + "su" + rest;
      Tokens(s, |pre|) == [QemuSu] + Tokens(s, Resume(s, |pre| + 2))
  {
    var s := pre + "su" + rest;
    var p := |pre|;
    assert s[p] == 's' && s[p + 1] == 'u';
    assert At(s, p - 1) == At(pre, p - 1);
    assert NextToken(s, p) == Scanned(QemuSu, Resume(s, p + 2));
  }

  /** Plain single letters (no version, no '_') one after another. */
  predicate PlainLetters(t: string)
  {
    forall i :: 0 <= i < |t| ==> IsLower(t[i]) && !IsMultiStart(t[i])
  }

  function LetterTokens(t: string): seq<Token>
  {
    if |t| == 0 then [] else [Single(t[0], UintMax, 0)] + LetterTokens(t[1..])
  }

  /** One plain letter without a version: an unversioned token. */
  lemma LetterStep(s: string, p: nat, c: char)
    requires p < |s| && s[p] == c && IsLower(c) && !IsMultiStart(c) && !IsDigit(At(s, p + 1))
    ensures Tokens(s, p) == [Single(c, UintMax, 0)] + Tokens(s, Resume(s, p + 1))
  {
    assert NextToken(s, p) == Scanned(Single(c, UintMax, 0), Resume(s, p + 1));
  }

  /** Each plain letter of a run such as "imafdc" is one unversioned token,
      whatever follows the run other than a digit. */
  lemma {:induction false} LettersThen(s: string, p: nat, t: string)
    requires |t| > 0 && PlainLetters(t) && Holds(s, p, t) && !IsDigit(At(s, p + |t|))
    ensures Tokens(s, p) == LetterTokens(t) + Tokens(s, Resume(s, p + |t|))
    decreases |t|
  {
    if |t| == 1 {
      assert s[p + 0] == t[0];
      LetterStep(s, p, t[0]);
      assert LetterTokens(t) == [Single(t[0], UintMax, 0)] + LetterTokens([]);
    } else {
      assert Holds(s, p + 1, t[1..]) && PlainLetters(t[1..]) by {
        HoldsSplit(s, p, [t[0]], t[1..]);
        assert [t[0]] + t[1..] == t;
      }
      assert p + 1 + |t[1..]| == p + |t|;
      LettersThen(s, p + 1, t[1..]);
      LettersCons(s, p, t, Tokens(s, Resume(s, p + |t|)));
    }
  }

  /** The first letter of a longer run, then the tokens of the others. */
  lemma LettersCons(s: string, p: nat, t: string, rest: seq<Token>)
    requires |t| > 1 && PlainLetters(t) && Holds(s, p, t)
    requires Tokens(s, p + 1) == LetterTokens(t[1..]) + rest
    ensures Tokens(s, p) == LetterTokens(t) + rest
  {
    assert s[p + 0] == t[0] && s[p + 1] == t[1];
    LetterStep(s, p, t[0]);
    assert LetterTokens(t) == [Single(t[0], UintMax, 0)] + LetterTokens(t[1..]);
  }

  lemma TokensOfLetters(pre: string, t: string)
    requires PlainLetters(t)
    ensures Tokens(pre + t, |pre|) == LetterTokens(t)
  {
    PlacedLast(pre, t, "");
    assert pre + t + "" == pre + t;
    if |t| > 0 {
      LettersThen(pre + t, |pre|, t);
    }
    TokensEnd(pre + t, |pre| + |t|);
  }

  /** Letters written together, then '_' and well-formed extensions. */
  lemma LettersThenList(s: string, p: nat, t: string, xs: seq<Extension>)
    requires |t| > 0 && PlainLetters(t) && Holds(s, p, t)
    requires p + |t| < |s| && s[p + |t|] == '_'
    requires AllValid(xs) && HeldLast(s, p + |t| + 1, Render(xs))
    ensures Tokens(s, p) == LetterTokens(t) + ExpectAll(xs)
  {
    assert At(s, p + |t|) == '_';
    LettersThen(s, p, t);
    assert Resume(s, p + |t|) == p + |t| + 1;
    TokensAt(s, p + |t| + 1, xs);
  }

  /** The same for a whole string, as in "imafdc_zba_zbb". */
  lemma LettersThenRender(pre: string, t: string, xs: seq<Extension>)
    requires |t| > 0 && PlainLetters(t)
    requires forall i :: 0 <= i < |xs| ==> ValidExtension(xs[i])
    ensures Tokens(pre + t + "_" + Render(xs), |pre|) == LetterTokens(t) + ExpectAll(xs)
  {
    PlacedSep(pre, t, Render(xs));
    AllValidOf(xs);
    LettersThenList(pre + t + "_" + Render(xs), |pre|, t, xs);
  }

  /** pre, then t, a '_' and rest with the terminator. */
  lemma PlacedSep(pre: string, t: string, rest: string)
    ensures var s := pre + t + "_" + rest;
      && Holds(s, |pre|, t) && |pre| + |t| < |s| && s[|pre| + |t|] == '_'
      && HeldLast(s, |pre| + |t| + 1, rest)
  {
    var s := pre + t + "_" + rest;
    forall i | 0 <= i < |t| ensures s[|pre| + i] == t[i] {
    }
    forall i | 0 <= i < |rest| ensures s[|pre| + |t| + 1 + i] == rest[i] {
    }
  }

  /** Letters followed by QEMU's trailing "su", as in "imsu". */
  lemma LettersThenQemuSu(pre: string, t: string)
    requires |t| > 0 && PlainLetters(t)
    ensures Tokens(pre + t + "su", |pre|) == LetterTokens(t) + [QemuSu]
  {
    var s := pre + t + "su";
    assert s == (pre + t) + "su" + "";
    PlacedLast(pre, t, "su");
    assert s[|pre| + |t|] == 's';
    LettersThen(s, |pre|, t);
    assert (pre + t)[|pre + t| - 1] == t[|t| - 1];
    QemuSuSkipped(pre + t, "");
    TokensEnd(s, |s|);
  }

  lemma QemuString()
    ensures Tokens("rv64imsu", 4) == [Single('i', UintMax, 0), Single('m', UintMax, 0), QemuSu]
  {
    assert "rv64imsu" == "rv64" + "im" + "su";
    LettersThenQemuSu("rv64", "im");
    assert LetterTokens("im") == [Single('i', UintMax, 0)] + LetterTokens("m");
    assert LetterTokens("m") == [Single('m', UintMax, 0)] + LetterTokens("");
  }
}
