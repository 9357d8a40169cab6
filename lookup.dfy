/** Looking an extension up by name in hart 0's registry: the vDSO's
    `strcmp` and `__vdso_riscv_check_extension` (check_extension.c) and the
    `riscv_check_extension` system call (cpufeature.c). Characters stand for
    the unsigned bytes the C code compares. */
module Lookup {
  import opened CString
  import opened VdsoLayout
  import opened Registry

  datatype Option<T> = None | Some(value: T)

  // ---------------------------------------------------------------------
  // strcmp

  /** The C comparison of the strings from index i on: -1 or 1 at the first
      differing byte, 0 when both end together. */
  function CompareFrom(a: string, b: string, i: nat): (r: int)
    ensures r == -1 || r == 0 || r == 1
    decreases |a| - i
  {
    var c1 := At(a, i);
    var c2 := At(b, i);
    if c1 != c2 then (if c1 < c2 then -1 else 1)
    else if c1 == '\0' then 0
    else CompareFrom(a, b, i + 1)
  }

  function Compare(a: string, b: string): int
  {
    CompareFrom(a, b, 0)
  }

  /** `strcmp`: walks both strings until a byte differs or both end. */
  method StrCmp(a: string, b: string) returns (r: int)
    ensures r == Compare(a, b)
    ensures r == -1 || r == 0 || r == 1
  {
    var i := 0;
    while true
      invariant 0 <= i <= |a|
      invariant CompareFrom(a, b, i) == Compare(a, b)
      decreases |a| - i
    {
      var c1 := At(a, i);
      var c2 := At(b, i);
      if c1 != c2 {
        r := if c1 < c2 then -1 else 1;
        return;
      }
      if c1 == '\0' {
        break;
      }
      i := i + 1;
    }
    r := 0;
  }

  /** For strings without NUL, the comparison is 0 exactly when they are
      equal. */
  lemma CompareZeroIff(a: string, b: string)
    requires NoNul(a) && NoNul(b)
    ensures Compare(a, b) == 0 <==> a == b
  {
    CompareFromZeroIff(a, b, 0);
  }

  lemma {:induction false} CompareFromZeroIff(a: string, b: string, i: nat)
    requires NoNul(a) && NoNul(b) && i <= |a| && i <= |b| && a[..i] == b[..i]
    ensures CompareFrom(a, b, i) == 0 <==> a == b
    decreases |a| - i
  {
    if i < |a| && i < |b| && a[i] == b[i] {
      assert a[..i + 1] == b[..i + 1] by {
        assert a[..i + 1] == a[..i] + [a[i]];
        assert b[..i + 1] == b[..i] + [b[i]];
      }
      CompareFromZeroIff(a, b, i + 1);
    } else if i == |a| && i == |b| {
      assert a == a[..i] && b == b[..i];
    }
  }

  /** a sorts before b: they agree up to some index where a's byte (the
      terminator, if a ends there) is the smaller. */
  predicate Before(a: string, b: string, from: nat)
  {
    exists j :: from <= j <= |a| && j <= |b| && a[..j] == b[..j] && At(a, j) < At(b, j)
  }

  /** For strings without NUL, the comparison is -1 exactly when the first
      string sorts first and 1 exactly when the second does. */
  lemma CompareSign(a: string, b: string)
    requires NoNul(a) && NoNul(b)
    ensures Compare(a, b) == -1 <==> Before(a, b, 0)
    ensures Compare(a, b) == 1 <==> Before(b, a, 0)
  {
    CompareFromBefore(a, b, 0);
    CompareFromBefore(b, a, 0);
    CompareAntisymmetric(a, b, 0);
  }

  lemma {:induction false} CompareFromBefore(a: string, b: string, i: nat)
    requires NoNul(a) && NoNul(b) && i <= |a| && i <= |b| && a[..i] == b[..i]
    ensures CompareFrom(a, b, i) == -1 <==> Before(a, b, i)
    decreases |a| - i
  {
    if At(a, i) != At(b, i) {
      if At(a, i) < At(b, i) {
        assert At(a, i) < At(b, i) && a[..i] == b[..i];
      }
    } else if At(a, i) != '\0' {
      assert a[..i + 1] == b[..i + 1] by {
        assert a[..i + 1] == a[..i] + [a[i]];
        assert b[..i + 1] == b[..i] + [b[i]];
      }
      CompareFromBefore(a, b, i + 1);
      if Before(a, b, i) {
        var j :| i <= j <= |a| && j <= |b| && a[..j] == b[..j] && At(a, j) < At(b, j);
        assert j != i;
      }
    }
  }

  /** Swapping the arguments flips the sign. */
  lemma {:induction false} CompareAntisymmetric(a: string, b: string, i: nat)
    ensures CompareFrom(a, b, i) == -CompareFrom(b, a, i)
    decreases |a| - i
  {
    if At(a, i) == At(b, i) && At(a, i) != '\0' {
      CompareAntisymmetric(a, b, i + 1);
    }
  }

  // ---------------------------------------------------------------------
  // Walking the registry

  /** Every written slot holds a C string that fits its array. */
  predicate NamesProper(pg: Page)
  {
    forall k :: 0 <= k < |pg.records| ==> ProperName(pg.records[k].extName)
  }

  /** Registering entries whose names are proper keeps every stored name
      proper. */
  lemma {:induction false} RegisteredAllNamesProper(pg: Page, cap: nat, es: seq<Entry>)
    requires WellLinked(pg) && NamesProper(pg)
    requires forall i :: 0 <= i < |es| ==> ProperName(es[i].name)
    ensures NamesProper(RegisteredAll(pg, cap, es))
    decreases |es|
  {
    if es != [] {
      var p := RegisteredAll(pg, cap, es[..|es| - 1]);
      var e := es[|es| - 1];
      RegisteredAllNamesProper(pg, cap, es[..|es| - 1]);
      AppendedKeepsSlots(p, e.name, e.major, e.minor);
    }
  }

  /** What both lookups compute: from buffer slot k on, compare each slot's
      name, and go on to the next slot while the current one's `next` is
      not NULL. */
  function Scan(pg: Page, q: string, k: nat): (r: Option<Entry>)
    requires WellLinked(pg) && k <= |pg.records|
    ensures r.Some? ==> r.value.name == q
    decreases |pg.records| - k
  {
    var r := SlotAt(pg, k);
    if r.extName == q then Some(EntryOf(r))
    else if r.next == Null then None
    else Scan(pg, q, k + 1)
  }

  /** The first entry of a list with the given name. */
  function FirstMatch(es: seq<Entry>, q: string): (r: Option<Entry>)
    ensures r.Some? ==> r.value in es && r.value.name == q
  {
    if es == [] then None
    else if es[0].name == q then Some(es[0])
    else FirstMatch(es[1..], q)
  }

  /** A name is found exactly when some entry has it, and what is found is
      the first such entry. */
  lemma {:induction false} FirstMatchIff(es: seq<Entry>, q: string)
    ensures FirstMatch(es, q).Some? <==> exists i :: 0 <= i < |es| && es[i].name == q
    ensures FirstMatch(es, q).Some? ==>
      exists i :: 0 <= i < |es| && es[i] == FirstMatch(es, q).value && forall j :: 0 <= j < i ==> es[j].name != q
  {
    if es != [] && es[0].name != q {
      FirstMatchIff(es[1..], q);
      if FirstMatch(es, q).Some? {
        var i :| 0 <= i < |es[1..]| && es[1..][i] == FirstMatch(es, q).value && forall j :: 0 <= j < i ==> es[1..][j].name != q;
        assert es[i + 1] == FirstMatch(es, q).value;
        assert forall j :: 0 <= j < i + 1 ==> es[j].name != q by {
          forall j | 0 <= j < i + 1 ensures es[j].name != q {
            if j > 0 { assert es[j] == es[1..][j - 1]; }
          }
        }
      } else {
        forall i | 0 <= i < |es| ensures es[i].name != q {
          if i > 0 { assert es[i] == es[1..][i - 1]; }
        }
      }
    } else if es != [] {
      assert es[0] == FirstMatch(es, q).value;
    }
  }

  /** From a slot on the list, the scan meets the list's entries in list
      order, so it finds the first listed entry with the name. */
  lemma {:induction false} ScanFollowsList(pg: Page, q: string, k: nat)
    requires WellLinked(pg) && k < |pg.records|
    ensures Scan(pg, q, k) == FirstMatch(ListedFrom(pg, k), q)
    decreases |pg.records| - k
  {
    var r := pg.records[k];
    if r.extName != q && r.next != Null {
      ScanFollowsList(pg, q, k + 1);
      assert ListedFrom(pg, k)[1..] == ListedFrom(pg, k + 1);
    }
  }

  /** When the list starts at slot 0, the lookups find exactly the listed
      extensions, each with the version first registered for it. */
  lemma ScanFindsListed(pg: Page, q: string)
    requires WellLinked(pg) && pg.head == Slot(0)
    ensures Scan(pg, q, 0) == FirstMatch(Listed(pg), q)
    ensures Scan(pg, q, 0).Some? <==> exists i :: 0 <= i < |Listed(pg)| && Listed(pg)[i].name == q
  {
    ScanFollowsList(pg, q, 0);
    FirstMatchIff(Listed(pg), q);
  }

  /** As written, slot 0 is compared even when nothing was registered: the
      zeroed slot has the empty name, so the empty query is found with
      version 0.0 while nothing is listed. */
  lemma EmptyQueryFoundOnEmptyPage()
    ensures Scan(ZeroPage, "", 0) == Some(Entry("", 0, 0))
    ensures FirstMatch(Listed(ZeroPage), "") == None
  {
  }

  // ---------------------------------------------------------------------
  // The two lookups as written

  const MaxArgStrlen := 32 * 4096

  /** The `riscv_check_extension` system call. `major0`/`minor0` are what the
      caller's variables held; they are written only when the name is found. */
  method SyscallCheckExtension(pg: Page, query: string, major0: nat, minor0: nat)
    returns (rc: int, major: nat, minor: nat)
    requires WellLinked(pg) && NamesProper(pg)
    requires NoNul(query) && |query| < MaxArgStrlen
    ensures rc == 0 || rc == -1
    ensures rc == 0 <==> Scan(pg, query, 0).Some?
    ensures rc == 0 ==> Scan(pg, query, 0) == Some(Entry(query, major, minor))
    ensures rc != 0 ==> major == major0 && minor == minor0
  {
    var k := 0;
    var ll := Slot(0);
    while ll != Null
      invariant k <= |pg.records|
      invariant ll == Null || ll == Slot(k)
      invariant Scan(pg, query, 0) == (if ll == Null then None else Scan(pg, query, k))
      decreases |pg.records| - k, ll != Null
    {
      var r := SlotAt(pg, k);
      var c := StrCmp(r.extName, query);
      CompareZeroIff(r.extName, query);
      if c == 0 {
        return 0, r.specMaj, r.specMin;
      }
      ll := NextOf(pg, ll);
      if ll != Null {
        k := k + 1;
      }
    }
    return -1, major0, minor0;
  }

  /** `__vdso_riscv_check_extension`, the same lookup run in user space. */
  method VdsoCheckExtension(pg: Page, query: string, major0: nat, minor0: nat)
    returns (rc: int, major: nat, minor: nat)
    requires WellLinked(pg) && NamesProper(pg) && NoNul(query)
    ensures rc == 0 || rc == -1
    ensures rc == 0 <==> Scan(pg, query, 0).Some?
    ensures rc == 0 ==> Scan(pg, query, 0) == Some(Entry(query, major, minor))
    ensures rc != 0 ==> major == major0 && minor == minor0
  {
    var k := 0;
    var iter := Head;
    while iter != Null
      invariant k <= |pg.records|
      invariant iter == Null || iter == Head || iter == Slot(k)
      invariant iter == Head ==> k == 0
      invariant Scan(pg, query, 0) == (if iter == Null then None else Scan(pg, query, k))
      decreases |pg.records| - k, iter != Null
    {
      var r := SlotAt(pg, k);
      var c := StrCmp(query, r.extName);
      CompareZeroIff(query, r.extName);
      if c == 0 {
        return 0, r.specMaj, r.specMin;
      }
      iter := r.next;
      if iter != Null {
        k := k + 1;
      }
    }
    return -1, major0, minor0;
  }

  // ---------------------------------------------------------------------
  // The lookup walking from the list head

  /** The lookup as evidently intended: follow the list from
      `extension_head`, so only registered extensions can be found. */
  method LookupListed(pg: Page, query: string, major0: nat, minor0: nat)
    returns (rc: int, major: nat, minor: nat)
    requires WellLinked(pg) && NamesProper(pg) && NoNul(query)
    ensures rc == 0 || rc == -1
    ensures rc == 0 <==> FirstMatch(Listed(pg), query).Some?
    ensures rc == 0 ==> FirstMatch(Listed(pg), query) == Some(Entry(query, major, minor))
    ensures rc != 0 ==> major == major0 && minor == minor0
  {
    var iter := pg.head;
    while iter != Null
      invariant iter == Null || (iter.Slot? && iter.index < |pg.records|)
      invariant FirstMatch(Listed(pg), query) ==
        (if iter == Null then None else FirstMatch(ListedFrom(pg, iter.index), query))
      decreases if iter == Null then 0 else |pg.records| - iter.index + 1
    {
      var r := pg.records[iter.index];
      var c := StrCmp(query, r.extName);
      CompareZeroIff(query, r.extName);
      if c == 0 {
        return 0, r.specMaj, r.specMin;
      }
      if r.next != Null {
        assert ListedFrom(pg, iter.index)[1..] == ListedFrom(pg, iter.index + 1);
      }
      iter := r.next;
    }
    return -1, major0, minor0;
  }

  /** The intended lookup finds a name exactly when it is listed. */
  lemma LookupListedIff(pg: Page, q: string)
    requires WellLinked(pg)
    ensures FirstMatch(Listed(pg), q).Some? <==> exists i :: 0 <= i < |Listed(pg)| && Listed(pg)[i].name == q
  {
    FirstMatchIff(Listed(pg), q);
  }
}
