/** The per-hart vDSO page and the extension record stored in it
    (`struct arch_vdso_data` and `struct rvext`). Pointers of the C layout
    become slot indices. */
module VdsoLayout {
  import opened CString

  /** Size in bytes of the record buffer of one hart's page. */
  const BufferSize: nat := 8192
  /** Size of the `ext_name` array of a record. */
  const NameSize: nat := 100

  /** The build's register width, which fixes pointer size and ISA prefix. */
  datatype Xlen = Rv32 | Rv64

  function PointerSize(x: Xlen): nat
  {
    match x
    case Rv32 => 4
    case Rv64 => 8
  }

  /** Rounds n up to a multiple of a. */
  function AlignUp(n: nat, a: nat): nat
    requires a > 0
  {
    (n + a - 1) / a * a
  }

  /** sizeof(struct rvext): two u64, a 100-byte name, then a two-pointer
      list_head, the whole padded to the 8-byte alignment of u64. */
  function RecordSize(x: Xlen): (size: nat)
    ensures size == (match x case Rv32 => 128 case Rv64 => 136)
  {
    var linkOffset := AlignUp(8 + 8 + NameSize, PointerSize(x));
    AlignUp(linkOffset + 2 * PointerSize(x), 8)
  }

  /** Number of records that lie wholly inside the buffer. */
  function SlotCapacity(x: Xlen): nat
  {
    BufferSize / RecordSize(x)
  }

  /** Slot k occupies bytes [k * size, (k + 1) * size) of the buffer. */
  predicate SlotInBuffer(x: Xlen, k: nat)
  {
    (k + 1) * RecordSize(x) <= BufferSize
  }

  /** A `list_head` pointer: NULL, the page's `extension_head`, or the link
      embedded in the record at a slot. */
  datatype Link = Null | Head | Slot(index: nat)

  /** One `struct rvext`. */
  datatype Record = Record(specMaj: nat, specMin: nat, extName: string, prev: Link, next: Link)

  /** A slot of the zero-initialised page. */
  const EmptyRecord := Record(0, 0, "", Null, Null)

  /** A stored name reads back as a C string only when its bytes and a
      terminator fit the 100-byte array. */
  predicate ProperName(name: string)
  {
    |name| <= NameSize - 1 && NoNul(name)
  }

  /** The slots inside the buffer are exactly those below SlotCapacity:
      60 on a 64-bit build and 64 on a 32-bit one. */
  lemma SlotInBufferIff(x: Xlen, k: nat)
    ensures SlotInBuffer(x, k) <==> k < SlotCapacity(x)
    ensures SlotCapacity(x) == (match x case Rv32 => 64 case Rv64 => 60)
  {
  }
}
