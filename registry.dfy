/** The extension registry kept in a hart's vDSO page by `riscv_fill_hwcap`
    (cpufeature.c): records laid out one after another in the page buffer,
    threaded on a doubly linked list whose head is `extension_head`. */
module Registry {
  import opened CString
  import opened VdsoLayout

  /** One hart's `struct arch_vdso_data`. `head` is `extension_head.next`;
      `records` are the slots written so far, so |records| is that hart's
      `ext_offset_n`. Slots past it still hold the zeroed page. */
  datatype Page = Page(mvendor: nat, march: nat, mimpl: nat, head: Link, records: seq<Record>)

  /** A page of the zero-initialised vDSO data area. */
  const ZeroPage := Page(0, 0, 0, Null, [])

  /** What a lookup reports for a listed extension. */
  datatype Entry = Entry(name: string, major: nat, minor: nat)

  function EntryOf(r: Record): Entry
  {
    Entry(r.extName, r.specMaj, r.specMin)
  }

  /** The record in slot k of the buffer. */
  function SlotAt(pg: Page, k: nat): (r: Record)
    ensures k >= |pg.records| ==> r == EmptyRecord
  {
    if k < |pg.records| then pg.records[k] else EmptyRecord
  }

  /** The `next` pointer stored at a list node. */
  function NextOf(pg: Page, l: Link): Link
  {
    match l
    case Null => Null
    case Head => pg.head
    case Slot(k) => SlotAt(pg, k).next
  }

  /** From slot j on, each written record links to the one after it. */
  predicate ChainedFrom(pg: Page, j: nat)
  {
    forall k :: j <= k < |pg.records| - 1 ==> pg.records[k].next == Slot(k + 1)
  }

  /** The shape the registration code keeps: every record's `next` is NULL
      or the slot right after it (and written); the head is NULL or a
      written slot from which the records are chained to the last one. */
  predicate WellLinked(pg: Page)
  {
    && (forall k :: 0 <= k < |pg.records| ==>
          pg.records[k].next == Null || (pg.records[k].next == Slot(k + 1) && k + 1 < |pg.records|))
    && (pg.head == Null || (pg.head.Slot? && pg.head.index < |pg.records| && ChainedFrom(pg, pg.head.index)))
  }

  /** The entries on the list from slot k, following `next`. */
  function ListedFrom(pg: Page, k: nat): seq<Entry>
    decreases |pg.records| - k
  {
    if k >= |pg.records| then []
    else if pg.records[k].next == Slot(k + 1) then [EntryOf(pg.records[k])] + ListedFrom(pg, k + 1)
    else [EntryOf(pg.records[k])]
  }

  /** The entries on the list from `extension_head`, in list order. */
  function Listed(pg: Page): seq<Entry>
  {
    if pg.head.Slot? then ListedFrom(pg, pg.head.index) else []
  }

  /** The node whose `next` is NULL, reached by walking from the head. */
  function Tail(pg: Page): Link
    requires WellLinked(pg)
  {
    if pg.head == Null then Head else Slot(|pg.records| - 1)
  }

  /** A new record in the next free slot, linked after the tail. */
  function Appended(pg: Page, name: string, major: nat, minor: nat): Page
    requires WellLinked(pg)
  {
    var n := |pg.records|;
    var rec := Record(major, minor, name, Tail(pg), Null);
    if pg.head == Null then pg.(head := Slot(n), records := pg.records + [rec])
    else pg.(records := pg.records[n - 1 := pg.records[n - 1].(next := Slot(n))] + [rec])
  }

  /** Registration with the bound on the buffer: when the next slot would
      not fit, the page is left as it is. */
  function Registered(pg: Page, cap: nat, name: string, major: nat, minor: nat): Page
    requires WellLinked(pg)
  {
    if |pg.records| < cap then Appended(pg, name, major, minor) else pg
  }

  /** What a hart's pass starts with: the SBI ids are stored and the list
      head is cleared. The slots and the count are left as they are. */
  function Reset(pg: Page, mvendor: nat, march: nat, mimpl: nat): Page
  {
    pg.(mvendor := mvendor, march := march, mimpl := mimpl, head := Null)
  }

  // ---------------------------------------------------------------------
  // Lemmas

  lemma ZeroPageEmpty()
    ensures WellLinked(ZeroPage) && Listed(ZeroPage) == []
  {
  }

  /** A reset page keeps its slots but lists nothing. */
  lemma ResetEmpties(pg: Page, mvendor: nat, march: nat, mimpl: nat)
    requires WellLinked(pg)
    ensures var r := Reset(pg, mvendor, march, mimpl);
      WellLinked(r) && Listed(r) == [] && r.records == pg.records
  {
  }

  /** The walk from the head ends at Tail: from Head when the list is
      empty, otherwise at the last written slot. */
  lemma TailEndsWalk(pg: Page)
    requires WellLinked(pg)
    ensures NextOf(pg, Tail(pg)) == Null
    ensures Tail(pg).Slot? ==> pg.head.Slot? && pg.head.index <= Tail(pg).index < |pg.records|
  {
  }

  /** Appending keeps the list well linked. */
  lemma AppendedWellLinked(pg: Page, name: string, major: nat, minor: nat)
    requires WellLinked(pg)
    ensures WellLinked(Appended(pg, name, major, minor))
  {
    var n := |pg.records|;
    var a := Appended(pg, name, major, minor);
    if pg.head != Null {
      assert forall k :: 0 <= k < n - 1 ==> a.records[k] == pg.records[k];
    }
  }

  /** Appending adds exactly one entry, at the end of the list, and leaves
      every earlier entry as it was. */
  lemma ListedAppended(pg: Page, name: string, major: nat, minor: nat)
    requires WellLinked(pg)
    ensures Listed(Appended(pg, name, major, minor)) == Listed(pg) + [Entry(name, major, minor)]
  {
    var a := Appended(pg, name, major, minor);
    var n := |pg.records|;
    if pg.head == Null {
      assert a.records[n].next == Null;
      assert ListedFrom(a, n) == [Entry(name, major, minor)];
    } else {
      ListedFromAppended(pg, name, major, minor, pg.head.index);
    }
  }

  lemma {:induction false} ListedFromAppended(pg: Page, name: string, major: nat, minor: nat, k: nat)
    requires WellLinked(pg) && pg.head.Slot? && pg.head.index <= k < |pg.records|
    ensures ListedFrom(Appended(pg, name, major, minor), k) == ListedFrom(pg, k) + [Entry(name, major, minor)]
    decreases |pg.records| - k
  {
    var a := Appended(pg, name, major, minor);
    var n := |pg.records|;
    if k == n - 1 {
      assert a.records[k].next == Slot(n);
      assert a.records[n].next == Null;
      assert ListedFrom(a, n) == [Entry(name, major, minor)];
    } else {
      assert pg.records[k].next == Slot(k + 1);
      assert a.records[k] == pg.records[k];
      ListedFromAppended(pg, name, major, minor, k + 1);
    }
  }

  /** Appending writes the next free slot and changes no name or version
      already stored. */
  lemma AppendedKeepsSlots(pg: Page, name: string, major: nat, minor: nat)
    requires WellLinked(pg)
    ensures var a := Appended(pg, name, major, minor);
      && |a.records| == |pg.records| + 1
      && EntryOf(a.records[|pg.records|]) == Entry(name, major, minor)
      && forall k :: 0 <= k < |pg.records| ==> EntryOf(a.records[k]) == EntryOf(pg.records[k])
  {
  }
  // ---------------------------------------------------------------------
  // A run of registrations

  /** The page after registering the entries one by one, in order. */
  function RegisteredAll(pg: Page, cap: nat, es: seq<Entry>): (r: Page)
    requires WellLinked(pg)
    ensures WellLinked(r)
    ensures |pg.records| <= cap ==> |r.records| <= cap
    decreases |es|
  {
    if es == [] then pg
    else
      var p := RegisteredAll(pg, cap, es[..|es| - 1]);
      var e := es[|es| - 1];
      AppendedWellLinked(p, e.name, e.major, e.minor);
      AppendedKeepsSlots(p, e.name, e.major, e.minor);
      Registered(p, cap, e.name, e.major, e.minor)
  }

  function Min(a: int, b: int): int
  {
    if a <= b then a else b
  }

  /** One registration lists its entry last when a slot is free and
      changes nothing otherwise. */
  lemma RegisteredStep(pg: Page, cap: nat, e: Entry)
    requires WellLinked(pg)
    ensures var r := Registered(pg, cap, e.name, e.major, e.minor);
      && (|pg.records| < cap ==> Listed(r) == Listed(pg) + [e] && |r.records| == |pg.records| + 1)
      && (|pg.records| >= cap ==> r == pg)
  {
    if |pg.records| < cap {
      ListedAppended(pg, e.name, e.major, e.minor);
    }
  }

  /** Registering a run lists as many of its entries, in order, as the free
      slots hold, and never fills more slots than `cap`. */
  lemma {:induction false} RegisteredAllListed(pg: Page, cap: nat, es: seq<Entry>)
    requires WellLinked(pg) && |pg.records| <= cap
    ensures var m := Min(cap - |pg.records|, |es|);
      && Listed(RegisteredAll(pg, cap, es)) == Listed(pg) + es[..m]
      && |RegisteredAll(pg, cap, es).records| == |pg.records| + m
    decreases |es|
  {
    if es != [] {
      var pre := es[..|es| - 1];
      var e := es[|es| - 1];
      RegisteredAllListed(pg, cap, pre);
      var p := RegisteredAll(pg, cap, pre);
      assert RegisteredAll(pg, cap, es) == Registered(p, cap, e.name, e.major, e.minor);
      RegisteredStep(p, cap, e);
      TakeStep(es, cap - |pg.records|);
    }
  }

  /** How a prefix bounded by `room` grows when one element is added. */
  lemma TakeStep(es: seq<Entry>, room: nat)
    requires es != []
    ensures var pre := es[..|es| - 1];
      var m' := Min(room, |pre|);
      && (m' < room ==> pre[..m'] + [es[|es| - 1]] == es[..Min(room, |es|)])
      && (m' >= room ==> pre[..m'] == es[..Min(room, |es|)])
  {
    var pre := es[..|es| - 1];
    if Min(room, |pre|) < room {
      assert pre + [es[|es| - 1]] == es;
    }
  }

  /** Registering two runs one after the other is registering their
      concatenation. */
  lemma {:induction false} RegisteredAllConcat(pg: Page, cap: nat, es: seq<Entry>, fs: seq<Entry>)
    requires WellLinked(pg)
    ensures RegisteredAll(pg, cap, es + fs) == RegisteredAll(RegisteredAll(pg, cap, es), cap, fs)
    decreases |fs|
  {
    if fs == [] {
      assert es + fs == es;
    } else {
      var fs' := fs[..|fs| - 1];
      assert (es + fs)[..|es + fs| - 1] == es + fs';
      RegisteredAllConcat(pg, cap, es, fs');
    }
  }

  /** Registration as the C code writes it: every entry goes into the next
      slot, with no bound on the slot index. */
  function AppendedAll(pg: Page, es: seq<Entry>): (r: Page)
    requires WellLinked(pg)
    ensures WellLinked(r) && |r.records| == |pg.records| + |es|
    decreases |es|
  {
    if es == [] then pg
    else
      var p := AppendedAll(pg, es[..|es| - 1]);
      var e := es[|es| - 1];
      AppendedWellLinked(p, e.name, e.major, e.minor);
      AppendedKeepsSlots(p, e.name, e.major, e.minor);
      Appended(p, e.name, e.major, e.minor)
  }

  /** While the entries fit, the bounded registration is the one written. */
  lemma {:induction false} RegisteredAllWhenRoom(pg: Page, cap: nat, es: seq<Entry>)
    requires WellLinked(pg) && |pg.records| + |es| <= cap
    ensures RegisteredAll(pg, cap, es) == AppendedAll(pg, es)
    decreases |es|
  {
    if es != [] {
      RegisteredAllWhenRoom(pg, cap, es[..|es| - 1]);
    }
  }

  /** A run of registrations into an empty list starts the list at the
      first slot written. */
  lemma {:induction false} RegisteredAllHead(pg: Page, cap: nat, es: seq<Entry>)
    requires WellLinked(pg) && pg.head == Null && pg.records == [] && 0 < cap && es != []
    ensures RegisteredAll(pg, cap, es).head == Slot(0)
    decreases |es|
  {
    var pre := es[..|es| - 1];
    if pre != [] {
      RegisteredAllHead(pg, cap, pre);
    }
  }
}
