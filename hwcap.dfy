/** `riscv_fill_hwcap` (cpufeature.c): each hart's "riscv,isa" string is
    scanned into the ELF hwcap word, the ISA bitmap and the extension
    registry of that hart's vDSO page; the per-hart results are then reduced
    into the host values and the F-without-D policy applied. Also the two
    queries on the host ISA bitmap. */
module Hwcap {
  import opened CString
  import opened Decimal
  import opened VdsoLayout
  import opened IsaGrammar
  import opened IsaScanner
  import opened Registry
  import opened Lookup

  /** Size of the per-hart slot counters `ext_offset_n`. */
  const MaxHart: nat := 20
  /** RISCV_ISA_EXT_MAX: bits in an ISA bitmap. */
  const IsaExtMax: nat := 64
  /** RISCV_ISA_EXT_* numbers of the multi-letter extensions recognised. */
  const ExtSscofpmf: nat := 26
  const ExtZba: nat := 27
  const ExtZbb: nat := 28
  const ExtZfh: nat := 29
  /** COMPAT_HWCAP_ISA_F and COMPAT_HWCAP_ISA_D as bit positions. */
  const BitF: nat := 5
  const BitD: nat := 3

  /** A "cpu" device-tree node: the hart id `riscv_of_processor_hartid`
      returns (negative when the node is not a usable hart), its
      "riscv,isa" string if present, and the ids the SBI reports. */
  datatype HartNode = HartNode(hartid: int, isa: Option<string>, mvendor: nat, march: nat, mimpl: nat)

  /** Bits per `unsigned long`: the width of word 0 of a bitmap. */
  function WordBits(x: Xlen): nat
  {
    match x
    case Rv32 => 32
    case Rv64 => 64
  }

  // ---------------------------------------------------------------------
  // What one token contributes

  /** The `isa2hwcap` table: letters i, m, a, f, d and c map to their
      COMPAT_HWCAP_ISA bit, every other letter to nothing. */
  function HwcapOfLetter(c: char): (h: set<nat>)
    ensures h != {} <==> c in "imafdc"
    ensures forall b :: b in h ==> b == c as int - 'a' as int
  {
    if c == 'i' || c == 'm' || c == 'a' || c == 'f' || c == 'd' || c == 'c' then {(c as int - 'a' as int) as nat}
    else {}
  }

  /** The bitmap bit a recognised multi-letter name sets. */
  function NamedBit(name: string): (b: Option<nat>)
    ensures b.Some? <==> name in ["sscofpmf", "zba", "zbb", "zfh"]
    ensures b.Some? ==> 26 <= b.value < IsaExtMax && ProperName(name)
  {
    if name == "sscofpmf" then Some(ExtSscofpmf)
    else if name == "zba" then Some(ExtZba)
    else if name == "zbb" then Some(ExtZbb)
    else if name == "zfh" then Some(ExtZfh)
    else None
  }

  function TokenHwcap(t: Token): set<nat>
  {
    if t.Single? then HwcapOfLetter(t.letter) else {}
  }

  function TokenIsa(t: Token): set<nat>
  {
    match t
    case Single(c, _, _) => if IsLower(c) then {(c as int - 'a' as int) as nat} else {}
    case Multi(name, _, _) => if NamedBit(name).Some? then {NamedBit(name).value} else {}
    case _ => {}
  }

  /** The registry entry a token adds: one for a recognised multi-letter
      name, with the token's version. */
  function TokenEntries(t: Token): seq<Entry>
  {
    if t.Multi? && NamedBit(t.name).Some? then [Entry(t.name, t.major, t.minor)] else []
  }

  // ---------------------------------------------------------------------
  // What one hart contributes: folds over its tokens, in string order

  function HartHwcap(ts: seq<Token>): set<nat>
  {
    if ts == [] then {} else HartHwcap(ts[..|ts| - 1]) + TokenHwcap(ts[|ts| - 1])
  }

  function HartIsa(ts: seq<Token>): set<nat>
  {
    if ts == [] then {} else HartIsa(ts[..|ts| - 1]) + TokenIsa(ts[|ts| - 1])
  }

  function HartEntries(ts: seq<Token>): seq<Entry>
  {
    if ts == [] then [] else HartEntries(ts[..|ts| - 1]) + TokenEntries(ts[|ts| - 1])
  }

  /** The "rv32"/"rv64" prefix the build's width requires. */
  function Prefix(x: Xlen): string
  {
    match x
    case Rv32 => "rv32"
    case Rv64 => "rv64"
  }

  predicate HasPrefix(s: string, x: Xlen)
  {
    |s| >= 4 && s[..4] == Prefix(x)
  }

  /** The node has a hart id and an isa string, so its page is reset. */
  predicate Takes(n: HartNode)
  {
    n.hartid >= 0 && n.isa.Some?
  }

  /** The node's isa string is also scanned and takes part in the
      reduction. */
  predicate Parses(n: HartNode, x: Xlen)
  {
    Takes(n) && HasPrefix(n.isa.value, x)
  }

  function NodeTokens(n: HartNode, x: Xlen): seq<Token>
    requires Parses(n, x)
  {
    Tokens(n.isa.value, 4)
  }

  /** Every multi-letter token fits the 256-byte `tmp` copy. */
  predicate NamesFit(ts: seq<Token>)
  {
    forall i :: 0 <= i < |ts| ==> ts[i].Multi? ==> |ts[i].name| <= 256
  }

  /** What the C code needs of a node: its hart id indexes the vDSO pages
      and, when something is registered, the slot counters; its isa string
      is 7-bit (the kernel's `islower` also accepts Latin-1 letters, whose
      bit would fall outside the bitmap) and its names fit `tmp`. */
  predicate NodeFits(n: HartNode, x: Xlen, pages: nat)
  {
    Takes(n) ==>
      && n.hartid < pages
      && IsAscii(n.isa.value)
      && (HasPrefix(n.isa.value, x) ==>
            && NamesFit(Tokens(n.isa.value, 4))
            && (HartEntries(Tokens(n.isa.value, 4)) != [] ==> n.hartid < MaxHart))
  }

  // ---------------------------------------------------------------------
  // Across harts

  /** One step of the reduction as written: intersect with what has been
      gathered so far, unless that is empty, in which case start over from
      this hart's set. */
  function Reduce(acc: set<nat>, c: set<nat>): set<nat>
  {
    if acc != {} then acc * c else c
  }

  function ReduceAll(cs: seq<set<nat>>): set<nat>
  {
    if cs == [] then {} else Reduce(ReduceAll(cs[..|cs| - 1]), cs[|cs| - 1])
  }

  /** The per-hart hwcap words of the scanned nodes, in node order. */
  function HwcapsOf(nodes: seq<HartNode>, x: Xlen): seq<set<nat>>
  {
    if nodes == [] then []
    else
      var n := nodes[|nodes| - 1];
      HwcapsOf(nodes[..|nodes| - 1], x) + (if Parses(n, x) then [HartHwcap(NodeTokens(n, x))] else [])
  }

  function IsasOf(nodes: seq<HartNode>, x: Xlen): seq<set<nat>>
  {
    if nodes == [] then []
    else
      var n := nodes[|nodes| - 1];
      IsasOf(nodes[..|nodes| - 1], x) + (if Parses(n, x) then [HartIsa(NodeTokens(n, x))] else [])
  }

  /** F is dropped when D is absent. */
  function FdPolicy(h: set<nat>): set<nat>
  {
    if BitF in h && BitD !in h then h - {BitF} else h
  }

  /** Every page well linked and within the buffer. */
  predicate PagesValid(ps: seq<Page>, cap: nat)
  {
    forall h :: 0 <= h < |ps| ==> WellLinked(ps[h]) && |ps[h].records| <= cap
  }

  /** No page holds a record: the state before any registration. */
  predicate NoRecords(ps: seq<Page>)
  {
    forall h :: 0 <= h < |ps| ==> ps[h].records == []
  }

  /** A node's effect on its page: reset, then its recognised extensions
      registered in order. */
  function PageAfterNode(pg: Page, n: HartNode, x: Xlen, cap: nat): (r: Page)
    requires Takes(n) && WellLinked(pg) && |pg.records| <= cap
    ensures WellLinked(r) && |r.records| <= cap
  {
    var reset := Reset(pg, n.mvendor, n.march, n.mimpl);
    if HasPrefix(n.isa.value, x) then RegisteredAll(reset, cap, HartEntries(NodeTokens(n, x)))
    else reset
  }

  /** The pages after the nodes have been processed in order. */
  function PagesAfter(ps: seq<Page>, nodes: seq<HartNode>, x: Xlen, cap: nat): (r: seq<Page>)
    requires PagesValid(ps, cap)
    requires forall i :: 0 <= i < |nodes| ==> NodeFits(nodes[i], x, |ps|)
    ensures |r| == |ps| && PagesValid(r, cap)
  {
    if nodes == [] then ps
    else
      var qs := PagesAfter(ps, nodes[..|nodes| - 1], x, cap);
      var n := nodes[|nodes| - 1];
      assert NodeFits(n, x, |ps|);
      if Takes(n) then qs[n.hartid := PageAfterNode(qs[n.hartid], n, x, cap)] else qs
  }

  // ---------------------------------------------------------------------
  // The kernel state

  class Kernel {
    /** `elf_hwcap` */
    var elfHwcap: set<nat>
    /** The host ISA bitmap `riscv_isa`. */
    var riscvIsa: set<nat>
    /** The `cpu_hwcap_fpu` static key (CONFIG_FPU). */
    var fpuEnabled: bool
    const xlen: Xlen
    /** The vDSO data pages, indexed by hart id. */
    const vdata: array<Page>

    predicate Valid()
      reads this, vdata
    {
      PagesValid(vdata[..], SlotCapacity(xlen))
    }

    /** The state at boot: everything zero, the key off. */
    constructor (xlen: Xlen, pages: nat)
      ensures this.xlen == xlen && vdata.Length == pages && fresh(vdata)
      ensures elfHwcap == {} && riscvIsa == {} && !fpuEnabled
      ensures forall h :: 0 <= h < pages ==> vdata[h] == ZeroPage
      ensures Valid()
    {
      this.xlen := xlen;
      vdata := new Page[pages](_ => ZeroPage);
      elfHwcap, riscvIsa, fpuEnabled := {}, {}, false;
    }

    /** `riscv_fill_hwcap`. It runs once, at boot, on zeroed vDSO data, and
        its slot counters `ext_offset_n` start at zero: no page holds a
        record yet. */
    method FillHwcap(nodes: seq<HartNode>)
      requires Valid()
      requires NoRecords(vdata[..])
      requires forall i :: 0 <= i < |nodes| ==> NodeFits(nodes[i], xlen, vdata.Length)
      modifies this, vdata
      ensures Valid()
      ensures riscvIsa == ReduceAll(IsasOf(nodes, xlen))
      ensures elfHwcap == FdPolicy(ReduceAll(HwcapsOf(nodes, xlen)))
      ensures fpuEnabled == (old(fpuEnabled) || BitF in elfHwcap || BitD in elfHwcap)
      ensures vdata[..] == PagesAfter(old(vdata[..]), nodes, xlen, SlotCapacity(xlen))
    {
      ghost var ps0 := vdata[..];
      elfHwcap, riscvIsa := {}, {};
      var i := 0;
      while i < |nodes|
        invariant 0 <= i <= |nodes| && Valid()
        invariant elfHwcap == ReduceAll(HwcapsOf(nodes[..i], xlen))
        invariant riscvIsa == ReduceAll(IsasOf(nodes[..i], xlen))
        invariant vdata[..] == PagesAfter(ps0, nodes[..i], xlen, SlotCapacity(xlen))
        invariant fpuEnabled == old(fpuEnabled)
      {
        NodesStep(nodes, i, xlen);
        PagesStep(ps0, nodes, i, xlen, SlotCapacity(xlen));
        FillFromNode(nodes[i]);
        i := i + 1;
      }
      assert nodes[..i] == nodes;
      if BitF in elfHwcap && BitD !in elfHwcap {
        elfHwcap := elfHwcap - {BitF};
      }
      if BitF in elfHwcap || BitD in elfHwcap {
        fpuEnabled := true;
      }
    }

    /** One pass of the node loop: skip a node without hart id or isa
        string, reset its page, skip it unless the string has the right
        prefix, scan it, then fold its results into the host values. */
    method FillFromNode(n: HartNode)
      requires Valid() && (Takes(n) ==> n.hartid < vdata.Length)
      modifies this, vdata
      ensures Valid() && fpuEnabled == old(fpuEnabled)
      ensures elfHwcap == if Parses(n, xlen) then Reduce(old(elfHwcap), HartHwcap(NodeTokens(n, xlen))) else old(elfHwcap)
      ensures riscvIsa == if Parses(n, xlen) then Reduce(old(riscvIsa), HartIsa(NodeTokens(n, xlen))) else old(riscvIsa)
      ensures vdata[..] == if Takes(n) then
        old(vdata[..])[n.hartid := PageAfterNode(old(vdata[n.hartid]), n, xlen, SlotCapacity(xlen))]
        else old(vdata[..])
    {
      if n.hartid < 0 || n.isa.None? {
        return;
      }
      var h := n.hartid;
      vdata[h] := Reset(vdata[h], n.mvendor, n.march, n.mimpl);
      var s := n.isa.value;
      if !HasPrefix(s, xlen) {
        PagesValidUpdate(old(vdata[..]), h, vdata[h], SlotCapacity(xlen));
        return;
      }
      var thisHwcap, thisIsa := ScanIsa(h, s);
      PagesValidUpdate(old(vdata[..]), h, vdata[h], SlotCapacity(xlen));
      elfHwcap := if elfHwcap != {} then elfHwcap * thisHwcap else thisHwcap;
      riscvIsa := if riscvIsa != {} then riscvIsa * thisIsa else thisIsa;
    }

    /** The token loop over one hart's isa string after its prefix. */
    method ScanIsa(h: nat, s: string) returns (thisHwcap: set<nat>, thisIsa: set<nat>)
      requires h < vdata.Length && WellLinked(vdata[h]) && HasPrefix(s, xlen)
      modifies vdata
      ensures thisHwcap == HartHwcap(Tokens(s, 4)) && thisIsa == HartIsa(Tokens(s, 4))
      ensures vdata[..] == old(vdata[..])[h := RegisteredAll(old(vdata[h]), SlotCapacity(xlen), HartEntries(Tokens(s, 4)))]
    {
      ghost var pg0 := vdata[h];
      ghost var done: seq<Token> := [];
      thisHwcap, thisIsa := {}, {};
      var p := 4;
      while At(s, p) != '\0'
        invariant 4 <= p <= |s|
        invariant Tokens(s, 4) == done + Tokens(s, p)
        invariant thisHwcap == HartHwcap(done) && thisIsa == HartIsa(done)
        invariant vdata[..] == old(vdata[..])[h := RegisteredAll(pg0, SlotCapacity(xlen), HartEntries(done))]
        decreases |s| - p
      {
        var tok, next := ScanToken(s, p);
        TokensStep(s, p, done);
        SingleIsLower(s, p);
        thisHwcap, thisIsa := ApplyNext(h, pg0, done, tok, thisHwcap, thisIsa);
        done := done + [tok];
        p := next;
      }
      assert Tokens(s, p) == [];
      assert done + [] == done;
    }

    /** One more token applied on top of the tokens `done` before it. */
    method ApplyNext(h: nat, ghost pg0: Page, ghost done: seq<Token>, tok: Token, hw: set<nat>, isa: set<nat>)
      returns (hw': set<nat>, isa': set<nat>)
      requires h < vdata.Length && WellLinked(pg0)
      requires vdata[h] == RegisteredAll(pg0, SlotCapacity(xlen), HartEntries(done))
      requires hw == HartHwcap(done) && isa == HartIsa(done)
      requires tok.Single? ==> IsLower(tok.letter)
      modifies vdata
      ensures hw' == HartHwcap(done + [tok]) && isa' == HartIsa(done + [tok])
      ensures vdata[..] == old(vdata[..])[h := RegisteredAll(pg0, SlotCapacity(xlen), HartEntries(done + [tok]))]
    {
      hw', isa' := ApplyToken(h, tok, hw, isa);
      StepFolds(done, tok);
      RegisteredAllConcat(pg0, SlotCapacity(xlen), HartEntries(done), TokenEntries(tok));
    }

    /** The body of the token loop for one token: a letter sets its hwcap
        and bitmap bits; a recognised name sets its bitmap bit and is
        registered. */
    method ApplyToken(h: nat, tok: Token, hw: set<nat>, isa: set<nat>) returns (hw': set<nat>, isa': set<nat>)
      requires h < vdata.Length && WellLinked(vdata[h])
      requires tok.Single? ==> IsLower(tok.letter)
      modifies vdata
      ensures hw' == hw + TokenHwcap(tok) && isa' == isa + TokenIsa(tok)
      ensures vdata[..] == old(vdata[..])[h := RegisteredAll(old(vdata[h]), SlotCapacity(xlen), TokenEntries(tok))]
    {
      hw', isa' := hw, isa;
      match tok {
        case Single(c, _, _) =>
          hw' := hw + HwcapOfLetter(c);
          isa' := isa + {(c as int - 'a' as int) as nat};
        case Multi(name, major, minor) =>
          var b := NamedBit(name);
          if b.Some? {
            isa' := isa + {b.value};
            Register(h, name, major, minor);
            assert [Entry(name, major, minor)][..0] == [];
          }
        case _ =>
      }
    }

    /** `SET_ISA_EXT_MAP`'s registration: write the record in the hart's
        next free slot, walk from `extension_head` to the node whose `next`
        is NULL and link the record after it. The slot is written only when
        it lies inside the buffer. */
    method Register(h: nat, name: string, major: nat, minor: nat)
      requires h < vdata.Length && WellLinked(vdata[h])
      modifies vdata
      ensures vdata[..] == old(vdata[..])[h := Registered(old(vdata[h]), SlotCapacity(xlen), name, major, minor)]
    {
      var pg := vdata[h];
      var n := |pg.records|;
      if n >= SlotCapacity(xlen) {
        return;
      }
      var iter := Head;
      while NextOf(pg, iter) != Null
        invariant iter == Head || (iter.Slot? && pg.head.Slot? && pg.head.index <= iter.index < n)
        decreases if iter == Head then n + 1 else n - iter.index
      {
        iter := NextOf(pg, iter);
      }
      assert iter == Tail(pg);
      var craft := Record(major, minor, name, iter, Null);
      if iter == Head {
        pg := pg.(head := Slot(n));
      } else {
        pg := pg.(records := pg.records[iter.index := pg.records[iter.index].(next := Slot(n))]);
      }
      vdata[h] := pg.(records := pg.records + [craft]);
    }

    /** `riscv_isa_extension_base`: word 0 of the given bitmap, or of the
        host bitmap when none is given. */
    function ExtensionBase(bitmap: Option<set<nat>>): (w: set<nat>)
      reads this
      ensures forall b :: b in w ==> b < WordBits(xlen)
    {
      var bmap := if bitmap.Some? then bitmap.value else riscvIsa;
      set b | b in bmap && b < WordBits(xlen)
    }

    /** `__riscv_isa_extension_available`. */
    function ExtensionAvailable(bitmap: Option<set<nat>>, bit: int): (r: bool)
      reads this
      requires bit >= 0
      ensures r ==> bit < IsaExtMax
    {
      var bmap := if bitmap.Some? then bitmap.value else riscvIsa;
      bit < IsaExtMax && bit as nat in bmap
    }

    /** The two queries agree on the bits of word 0. */
    lemma BaseAgreesWithAvailable(bitmap: Option<set<nat>>, b: nat)
      requires b < WordBits(xlen)
      ensures b in ExtensionBase(bitmap) <==> ExtensionAvailable(bitmap, b)
    {
      var bmap := if bitmap.Some? then bitmap.value else riscvIsa;
      if b in bmap {
        assert b in ExtensionBase(bitmap);
      }
    }
  }

  /** Replacing one page by a valid one keeps the pages valid. */
  lemma PagesValidUpdate(ps: seq<Page>, h: nat, pg: Page, cap: nat)
    requires PagesValid(ps, cap) && h < |ps| && WellLinked(pg) && |pg.records| <= cap
    ensures PagesValid(ps[h := pg], cap)
  {
  }

  /** The folds over nodes grow by one node's contribution. */
  lemma NodesStep(nodes: seq<HartNode>, i: nat, x: Xlen)
    requires i < |nodes|
    ensures var n := nodes[i];
      && HwcapsOf(nodes[..i + 1], x) == HwcapsOf(nodes[..i], x) + (if Parses(n, x) then [HartHwcap(NodeTokens(n, x))] else [])
      && IsasOf(nodes[..i + 1], x) == IsasOf(nodes[..i], x) + (if Parses(n, x) then [HartIsa(NodeTokens(n, x))] else [])
      && ReduceAll(HwcapsOf(nodes[..i + 1], x)) ==
           (if Parses(n, x) then Reduce(ReduceAll(HwcapsOf(nodes[..i], x)), HartHwcap(NodeTokens(n, x)))
            else ReduceAll(HwcapsOf(nodes[..i], x)))
      && ReduceAll(IsasOf(nodes[..i + 1], x)) ==
           (if Parses(n, x) then Reduce(ReduceAll(IsasOf(nodes[..i], x)), HartIsa(NodeTokens(n, x)))
            else ReduceAll(IsasOf(nodes[..i], x)))
  {
    assert nodes[..i + 1][..i] == nodes[..i];
    var n := nodes[i];
    if !Parses(n, x) {
      assert HwcapsOf(nodes[..i], x) + [] == HwcapsOf(nodes[..i], x);
      assert IsasOf(nodes[..i], x) + [] == IsasOf(nodes[..i], x);
    } else {
      var hs := HwcapsOf(nodes[..i], x);
      var bs := IsasOf(nodes[..i], x);
      assert (hs + [HartHwcap(NodeTokens(n, x))])[..|hs|] == hs;
      assert (bs + [HartIsa(NodeTokens(n, x))])[..|bs|] == bs;
    }
  }

  /** The pages after one more node. */
  lemma PagesStep(ps: seq<Page>, nodes: seq<HartNode>, i: nat, x: Xlen, cap: nat)
    requires PagesValid(ps, cap) && i < |nodes|
    requires forall j :: 0 <= j < |nodes| ==> NodeFits(nodes[j], x, |ps|)
    ensures var qs := PagesAfter(ps, nodes[..i], x, cap);
      var n := nodes[i];
      PagesAfter(ps, nodes[..i + 1], x, cap) ==
        if Takes(n) then qs[n.hartid := PageAfterNode(qs[n.hartid], n, x, cap)] else qs
  {
    assert nodes[..i + 1][..i] == nodes[..i];
  }

  /** The token list grows by the token at p. */
  lemma TokensStep(s: string, p: nat, done: seq<Token>)
    requires p < |s| && At(s, p) != '\0' && Tokens(s, 4) == done + Tokens(s, p)
    ensures Tokens(s, 4) == (done + [NextToken(s, p).token]) + Tokens(s, NextToken(s, p).next)
  {
    var r := NextToken(s, p);
    assert Tokens(s, p) == [r.token] + Tokens(s, r.next);
  }

  /** A single-letter token's letter is lower-case. */
  lemma SingleIsLower(s: string, p: nat)
    requires p < |s|
    ensures NextToken(s, p).token.Single? ==> IsLower(NextToken(s, p).token.letter)
  {
  }

  /** The folds grow by one token's contribution. */
  lemma StepFolds(done: seq<Token>, t: Token)
    ensures HartHwcap(done + [t]) == HartHwcap(done) + TokenHwcap(t)
    ensures HartIsa(done + [t]) == HartIsa(done) + TokenIsa(t)
    ensures HartEntries(done + [t]) == HartEntries(done) + TokenEntries(t)
  {
    assert (done + [t])[..|done|] == done;
  }

  // ---------------------------------------------------------------------
  // The reduction across harts

  /** What every set of a nonempty sequence has. */
  function Common(cs: seq<set<nat>>): set<nat>
    requires cs != []
  {
    if |cs| == 1 then cs[0] else Common(cs[..|cs| - 1]) * cs[|cs| - 1]
  }

  lemma {:induction false} CommonIff(cs: seq<set<nat>>, b: nat)
    requires cs != []
    ensures b in Common(cs) <==> forall i :: 0 <= i < |cs| ==> b in cs[i]
    decreases |cs|
  {
    if |cs| > 1 {
      var pre := cs[..|cs| - 1];
      CommonIff(pre, b);
      assert forall i :: 0 <= i < |pre| ==> pre[i] == cs[i];
    }
  }

  /** The reduction the comment above it asks for: the capabilities common
      to every scanned hart. */
  function ReduceCommon(cs: seq<set<nat>>): (r: set<nat>)
    ensures forall b :: b in r <==> cs != [] && forall i :: 0 <= i < |cs| ==> b in cs[i]
  {
    if cs == [] then {}
    else
      assert forall b :: b in Common(cs) <==> forall i :: 0 <= i < |cs| ==> b in cs[i] by {
        forall b: nat { CommonIff(cs, b); }
      }
      Common(cs)
  }

  /** As written, the reduction is what every hart has as long as that is
      not empty. */
  lemma {:induction false} ReduceAllCommon(cs: seq<set<nat>>)
    requires cs != [] && Common(cs) != {}
    ensures ReduceAll(cs) == Common(cs) == ReduceCommon(cs)
    decreases |cs|
  {
    var pre := cs[..|cs| - 1];
    if |cs| == 1 {
      assert pre == [];
    } else {
      assert Common(cs) <= Common(pre);
      ReduceAllCommon(pre);
    }
  }

  /** As written, the result never holds more than the last scanned hart. */
  lemma ReduceAllWithinLast(cs: seq<set<nat>>)
    requires cs != []
    ensures ReduceAll(cs) <= cs[|cs| - 1]
  {
  }

  /** As written, an empty intermediate result restarts the reduction:
      harts with "rv64i", "rv64m" and "rv64a" share nothing, yet the result
      is A, the last hart's set. */
  lemma ReduceAllReseeds()
    ensures var cs := [{8}, {12}, {0}];
      ReduceAll(cs) == {0} && ReduceCommon(cs) == {}
  {
    var cs: seq<set<nat>> := [{8}, {12}, {0}];
    var c2: seq<set<nat>> := [{8}, {12}];
    var c1: seq<set<nat>> := [{8}];
    assert cs[..2] == c2 && c2[..1] == c1 && c1[..0] == [];
    assert ReduceAll(c1) == {8};
    assert {8} * {12} == {};
    assert ReduceAll(c2) == {};
    assert forall b :: b in ReduceCommon(cs) ==> b in cs[0] && b in cs[2];
  }

  /** A hart's hwcap word is the union of what its tokens contribute. */
  lemma {:induction false} HartHwcapIff(ts: seq<Token>, b: nat)
    ensures b in HartHwcap(ts) <==> exists i :: 0 <= i < |ts| && b in TokenHwcap(ts[i])
    decreases |ts|
  {
    if ts != [] {
      var pre := ts[..|ts| - 1];
      HartHwcapIff(pre, b);
      if b in HartHwcap(pre) {
        var i :| 0 <= i < |pre| && b in TokenHwcap(pre[i]);
        assert ts[i] == pre[i];
      }
      if exists i :: 0 <= i < |ts| && b in TokenHwcap(ts[i]) {
        var i :| 0 <= i < |ts| && b in TokenHwcap(ts[i]);
        if i < |pre| {
          assert pre[i] == ts[i];
        }
      }
    }
  }

  /** A hart's bitmap is the union of what its tokens contribute. */
  lemma {:induction false} HartIsaIff(ts: seq<Token>, b: nat)
    ensures b in HartIsa(ts) <==> exists i :: 0 <= i < |ts| && b in TokenIsa(ts[i])
    decreases |ts|
  {
    if ts != [] {
      var pre := ts[..|ts| - 1];
      HartIsaIff(pre, b);
      if b in HartIsa(pre) {
        var i :| 0 <= i < |pre| && b in TokenIsa(pre[i]);
        assert ts[i] == pre[i];
      }
      if exists i :: 0 <= i < |ts| && b in TokenIsa(ts[i]) {
        var i :| 0 <= i < |ts| && b in TokenIsa(ts[i]);
        if i < |pre| {
          assert pre[i] == ts[i];
        }
      }
    }
  }

  lemma {:induction false} LetterTokensAt(t: string)
    ensures |LetterTokens(t)| == |t|
    ensures forall i :: 0 <= i < |t| ==> LetterTokens(t)[i] == Single(t[i], UintMax, 0)
    decreases |t|
  {
    if t != [] {
      LetterTokensAt(t[1..]);
    }
  }

  /** A string of plain letters after the prefix sets the hwcap bits of its
      letters among i, m, a, f, d, c, and the bitmap bit of every letter. */
  lemma LettersHart(x: Xlen, t: string, b: nat)
    requires PlainLetters(t)
    ensures b in HartHwcap(Tokens(Prefix(x) + t, 4)) <==> exists i :: 0 <= i < |t| && b in HwcapOfLetter(t[i])
    ensures b in HartIsa(Tokens(Prefix(x) + t, 4)) <==> exists i :: 0 <= i < |t| && b == t[i] as int - 'a' as int
  {
    TokensOfLetters(Prefix(x), t);
    LetterHwcapFold(t, b);
    LetterIsaFold(t, b);
  }

  lemma LetterHwcapFold(t: string, b: nat)
    requires PlainLetters(t)
    ensures b in HartHwcap(LetterTokens(t)) <==> exists i :: 0 <= i < |t| && b in HwcapOfLetter(t[i])
  {
    var ts := LetterTokens(t);
    LetterTokensAt(t);
    HartHwcapIff(ts, b);
    assert forall i :: 0 <= i < |t| ==> TokenHwcap(ts[i]) == HwcapOfLetter(t[i]);
  }

  lemma LetterIsaFold(t: string, b: nat)
    requires PlainLetters(t)
    ensures b in HartIsa(LetterTokens(t)) <==> exists i :: 0 <= i < |t| && b == t[i] as int - 'a' as int
  {
    var ts := LetterTokens(t);
    LetterTokensAt(t);
    HartIsaIff(ts, b);
    assert forall i :: 0 <= i < |t| ==> TokenIsa(ts[i]) == {(t[i] as int - 'a' as int) as nat};
  }

  /** A hart whose string is the prefix and one plain letter. */
  lemma OneLetterHart(x: Xlen, c: char)
    requires IsLower(c) && !IsMultiStart(c)
    ensures HartHwcap(Tokens(Prefix(x) + [c], 4)) == HwcapOfLetter(c)
    ensures HartIsa(Tokens(Prefix(x) + [c], 4)) == {(c as int - 'a' as int) as nat}
    ensures HartEntries(Tokens(Prefix(x) + [c], 4)) == []
  {
    TokensOfLetters(Prefix(x), [c]);
    assert LetterTokens([c]) == [Single(c, UintMax, 0)] + LetterTokens([]);
    var ts := [Single(c, UintMax, 0)];
    assert ts[..0] == [];
  }

  /** A node whose string is the prefix and one plain letter is scanned,
      and contributes that letter's hwcap bit. */
  lemma OneLetterNode(nodes: seq<HartNode>, id: nat, x: Xlen, c: char)
    requires IsLower(c) && !IsMultiStart(c)
    ensures var n := HartNode(id, Some(Prefix(x) + [c]), 0, 0, 0);
      HwcapsOf(nodes + [n], x) == HwcapsOf(nodes, x) + [HwcapOfLetter(c)]
  {
    var n := HartNode(id, Some(Prefix(x) + [c]), 0, 0, 0);
    assert (Prefix(x) + [c])[..4] == Prefix(x);
    OneLetterHart(x, c);
    assert (nodes + [n])[..|nodes|] == nodes;
  }

  /** The example harts ("rv64i", "rv64m", "rv64a") scan to exactly the
      sets above. */
  lemma ReseedHarts()
    ensures var nodes := [HartNode(0, Some(Prefix(Rv64) + ['i']), 0, 0, 0), HartNode(1, Some(Prefix(Rv64) + ['m']), 0, 0, 0),
                          HartNode(2, Some(Prefix(Rv64) + ['a']), 0, 0, 0)];
      HwcapsOf(nodes, Rv64) == [{8}, {12}, {0}]
  {
    var n0 := HartNode(0, Some(Prefix(Rv64) + ['i']), 0, 0, 0);
    var n1 := HartNode(1, Some(Prefix(Rv64) + ['m']), 0, 0, 0);
    var n2 := HartNode(2, Some(Prefix(Rv64) + ['a']), 0, 0, 0);
    OneLetterNode([], 0, Rv64, 'i');
    OneLetterNode([n0], 1, Rv64, 'm');
    OneLetterNode([n0, n1], 2, Rv64, 'a');
    assert [] + [n0] == [n0] && [n0] + [n1] == [n0, n1] && [n0, n1] + [n2] == [n0, n1, n2];
  }

  // ---------------------------------------------------------------------
  // The F/D policy

  /** After the policy F never appears without D, every other bit is as it
      was, and applying it again changes nothing. */
  lemma FdPolicyMasks(h: set<nat>)
    ensures BitF in FdPolicy(h) <==> BitF in h && BitD in h
    ensures forall b :: b != BitF ==> (b in FdPolicy(h) <==> b in h)
    ensures FdPolicy(FdPolicy(h)) == FdPolicy(h)
  {
  }

  // ---------------------------------------------------------------------
  // A hart's page

  /** After a hart's pass its list holds exactly its recognised extensions,
      in string order, as many as fit the free slots. */
  lemma PageAfterNodeListed(pg: Page, n: HartNode, x: Xlen, cap: nat)
    requires Parses(n, x) && WellLinked(pg) && |pg.records| <= cap
    ensures var es := HartEntries(NodeTokens(n, x));
      var m := Min(cap - |pg.records|, |es|);
      && Listed(PageAfterNode(pg, n, x, cap)) == es[..m]
      && |PageAfterNode(pg, n, x, cap).records| == |pg.records| + m
  {
    var reset := Reset(pg, n.mvendor, n.march, n.mimpl);
    ResetEmpties(pg, n.mvendor, n.march, n.mimpl);
    RegisteredAllListed(reset, cap, HartEntries(NodeTokens(n, x)));
  }

  /** After hart 0's pass on a fresh page, either nothing was registered, or
      the lookups find a name exactly when it is among the recognised
      extensions that fit, with the version of its first occurrence. */
  lemma BootThenLookup(n: HartNode, x: Xlen, q: string)
    requires Parses(n, x)
    ensures var es := HartEntries(NodeTokens(n, x));
      var pg := PageAfterNode(ZeroPage, n, x, SlotCapacity(x));
      var m := Min(SlotCapacity(x), |es|);
      && (es == [] ==> pg.records == [])
      && (es != [] ==> Scan(pg, q, 0) == FirstMatch(es[..m], q))
  {
    var es := HartEntries(NodeTokens(n, x));
    var cap := SlotCapacity(x);
    SlotInBufferIff(x, 0);
    PageAfterNodeListed(ZeroPage, n, x, cap);
    var reset := Reset(ZeroPage, n.mvendor, n.march, n.mimpl);
    if es != [] {
      RegisteredAllHead(reset, cap, es);
      ScanFindsListed(PageAfterNode(ZeroPage, n, x, cap), q);
    }
  }

  /** As written, a hart whose string lists 61 recognised extensions on a
      64-bit build writes slot 60, which lies past the end of the buffer. */
  lemma OverflowAsWritten()
    ensures var es := seq(61, _ => Entry("zba", UintMax, 0));
      && |AppendedAll(ZeroPage, es).records| == 61
      && !SlotInBuffer(Rv64, 60)
      && |RegisteredAll(ZeroPage, SlotCapacity(Rv64), es).records| == SlotCapacity(Rv64)
  {
    var es := seq(61, _ => Entry("zba", UintMax, 0));
    SlotInBufferIff(Rv64, 60);
    RegisteredAllListed(ZeroPage, SlotCapacity(Rv64), es);
  }

  /** The string behind the example: "rv64" followed by "zba" 61 times,
      separated by '_', registers 61 entries. */
  lemma OverflowString()
    ensures var xs := seq(61, _ => Named("zba", Unversioned));
      HartEntries(Tokens("rv64" + Render(xs), 4)) == seq(61, _ => Entry("zba", UintMax, 0))
  {
    var x := Named("zba", Unversioned);
    var xs := seq(61, _ => x);
    assert ValidExtension(x);
    TokensOfRender("rv64", xs);
    ExpectAllConst(xs, x);
    EntriesConst(seq(61, _ => Expect(x)), Expect(x), Entry("zba", UintMax, 0));
  }

  lemma {:induction false} ExpectAllConst(xs: seq<Extension>, x: Extension)
    requires forall i :: 0 <= i < |xs| ==> xs[i] == x
    ensures ExpectAll(xs) == seq(|xs|, _ => Expect(x))
    decreases |xs|
  {
    if xs != [] {
      ExpectAllConst(xs[1..], x);
    }
  }

  lemma {:induction false} EntriesConst(ts: seq<Token>, t: Token, e: Entry)
    requires TokenEntries(t) == [e]
    requires forall i :: 0 <= i < |ts| ==> ts[i] == t
    ensures HartEntries(ts) == seq(|ts|, _ => e)
    decreases |ts|
  {
    if ts != [] {
      EntriesConst(ts[..|ts| - 1], t, e);
    }
  }

  /** Only the four recognised names are ever registered, and each is a
      proper C string for the 100-byte name array. */
  lemma {:induction false} HartEntriesProper(ts: seq<Token>)
    ensures forall i :: 0 <= i < |HartEntries(ts)| ==> ProperName(HartEntries(ts)[i].name)
    ensures forall i :: 0 <= i < |HartEntries(ts)| ==> NamedBit(HartEntries(ts)[i].name).Some?
    decreases |ts|
  {
    if ts != [] {
      HartEntriesProper(ts[..|ts| - 1]);
    }
  }

  /** After the node loop every page still holds only proper names, so the
      lookups' requirement on the registry holds after boot. */
  lemma {:induction false} PagesAfterNamesProper(ps: seq<Page>, nodes: seq<HartNode>, x: Xlen, cap: nat)
    requires PagesValid(ps, cap)
    requires forall i :: 0 <= i < |nodes| ==> NodeFits(nodes[i], x, |ps|)
    requires forall h :: 0 <= h < |ps| ==> NamesProper(ps[h])
    ensures forall h :: 0 <= h < |ps| ==> NamesProper(PagesAfter(ps, nodes, x, cap)[h])
    decreases |nodes|
  {
    if nodes != [] {
      var qs := PagesAfter(ps, nodes[..|nodes| - 1], x, cap);
      var n := nodes[|nodes| - 1];
      PagesAfterNamesProper(ps, nodes[..|nodes| - 1], x, cap);
      assert NodeFits(n, x, |ps|);
      if Takes(n) {
        assert 0 <= n.hartid < |ps|;
        assert NamesProper(qs[n.hartid]);
        var reset := Reset(qs[n.hartid], n.mvendor, n.march, n.mimpl);
        assert reset.records == qs[n.hartid].records;
        if HasPrefix(n.isa.value, x) {
          HartEntriesProper(NodeTokens(n, x));
          RegisteredAllNamesProper(reset, cap, HartEntries(NodeTokens(n, x)));
        }
        var pg := PageAfterNode(qs[n.hartid], n, x, cap);
        assert NamesProper(pg);
        assert PagesAfter(ps, nodes, x, cap) == qs[n.hartid := pg];
      }
    }
  }
}
