/** The layout of an `.eh_frame_hdr` section, and the proof that opening it gives back its table. */
module IndexRoundTrip {
  import opened Words
  import opened EncodedPointer
  import opened FdeIndex

  /** The two pointers of a table entry. */
  datatype Pair = Pair(start: Word, fde: Word)

  /** A header: its version and three encodings, the pointer to the frame section, the count and the
      table. */
  datatype Index = Index(
    version: Byte, ehEnc: Byte, countEnc: Byte, tableEnc: Byte, eh: Word, count: Word, entries: seq<Pair>)

  const FIXED: nat := 4

  function EhBytes(m: Module, ix: Index): seq<Byte> {
    EncodePtr(m.hdr.base, FIXED, ix.ehEnc, ix.eh, 0, m.hdrOffset)
  }

  function CountAt(m: Module, ix: Index): nat {
    FIXED + |EhBytes(m, ix)|
  }

  function CountBytes(m: Module, ix: Index): seq<Byte> {
    EncodePtr(m.hdr.base, CountAt(m, ix), ix.countEnc, ix.count, 0, m.hdrOffset)
  }

  /** Where the table lies and how wide its fields are. */
  function TableOf(m: Module, ix: Index): HdrTable
    requires FieldWidth(ix.tableEnc).Some?
  {
    HdrTable(CountAt(m, ix) + |CountBytes(m, ix)|, FieldWidth(ix.tableEnc).value, |ix.entries|)
  }

  /** A field of the table is in place. */
  ghost predicate FieldHeld(m: Module, ix: Index, pos: nat, addr: Word) {
    && PtrFits(m.hdr.base, pos, ix.tableEnc, addr, 0, m.hdrOffset)
    && Holds(m.hdr.buf, pos, EncodePtr(m.hdr.base, pos, ix.tableEnc, addr, 0, m.hdrOffset))
    && Target(m.hdr, ix.tableEnc, addr).Some?
  }

  ghost predicate EntryHeld(m: Module, ix: Index, i: nat)
    requires FieldWidth(ix.tableEnc).Some? && i < |ix.entries|
  {
    var at := EntryAt(TableOf(m, ix), i);
    && FieldHeld(m, ix, at, ix.entries[i].start)
    && FieldHeld(m, ix, at + TableOf(m, ix).width, ix.entries[i].fde)
  }

  /** The header has the known version, points at the frame section and counts its entries. */
  predicate Consistent(m: Module, ix: Index)
    requires Target(m.hdr, ix.ehEnc, ix.eh).Some? && Target(m.hdr, ix.countEnc, ix.count).Some?
  {
    var eh, count := Target(m.hdr, ix.ehEnc, ix.eh).value, Target(m.hdr, ix.countEnc, ix.count).value;
    && ix.version == 1
    && count % 0x1_0000_0000 == |ix.entries| != 0
    && m.ehfOffset == if ix.ehEnc / 16 % 8 == 1 then Wrap(eh - m.hdr.base + m.hdrOffset) else eh
  }

  /** The section is this header and nothing else. */
  ghost predicate HoldsHeader(m: Module, ix: Index) {
    && FieldWidth(ix.tableEnc).Some?
    && Target(m.hdr, ix.ehEnc, ix.eh).Some? && Target(m.hdr, ix.countEnc, ix.count).Some?
    && Holds(m.hdr.buf, 0, [ix.version, ix.ehEnc, ix.countEnc, ix.tableEnc])
    && PtrFits(m.hdr.base, FIXED, ix.ehEnc, ix.eh, 0, m.hdrOffset)
    && Holds(m.hdr.buf, FIXED, EhBytes(m, ix))
    && PtrFits(m.hdr.base, CountAt(m, ix), ix.countEnc, ix.count, 0, m.hdrOffset)
    && Holds(m.hdr.buf, CountAt(m, ix), CountBytes(m, ix))
    && (forall i :: 0 <= i < |ix.entries| ==> EntryHeld(m, ix, i))
    && |m.hdr.buf| == EntryAt(TableOf(m, ix), |ix.entries|)
  }

  ghost predicate HoldsIndex(m: Module, ix: Index) {
    HoldsHeader(m, ix) && Consistent(m, ix)
  }

  lemma FixedBytes(m: Module, ix: Index)
    requires Holds(m.hdr.buf, 0, [ix.version, ix.ehEnc, ix.countEnc, ix.tableEnc])
    ensures HdrByte(m, 0) == ix.version && HdrByte(m, 1) == ix.ehEnc
    ensures HdrByte(m, 2) == ix.countEnc && HdrByte(m, 3) == ix.tableEnc
  {
    var whole := m.hdr.buf[0..4];
    assert whole[0] == m.hdr.buf[0] && whole[1] == m.hdr.buf[1];
    assert whole[2] == m.hdr.buf[2] && whole[3] == m.hdr.buf[3];
  }

  lemma WholeTable(t: HdrTable)
    requires t.width == 2 || t.width == 4 || t.width == 8
    ensures var room := EntryAt(t, t.count) - t.at;
            room >= 0 && WholeEntries(room, t.width) == t.count && LeftOver(room, t.width) == 0
  {
  }

  /** Such a header is accepted if and only if it is consistent, and then its table is where it was
      put. */
  lemma IndexOpens(m: Module, ix: Index)
    requires HoldsHeader(m, ix)
    ensures OpenTable(m) == if Consistent(m, ix) then Some(TableOf(m, ix)) else None
  {
    hide ReadPtr, EncodePtr, PtrFits, EntryAt, WholeEntries, LeftOver, Wrap, Form, EntryHeld;
    FixedBytes(m, ix);
    assert FieldWidth(ix.tableEnc).value in {2, 4, 8};
    WholeTable(TableOf(m, ix));
    PointerRoundTrip(m.hdr, FIXED, |m.hdr.buf|, ix.ehEnc, ix.eh, 0, m.hdrOffset);
    PointerRoundTrip(m.hdr, CountAt(m, ix), |m.hdr.buf|, ix.countEnc, ix.count, 0, m.hdrOffset);
  }

  lemma FieldReads(m: Module, ix: Index, pos: nat, addr: Word)
    requires FieldWidth(ix.tableEnc).Some? && HdrByte(m, 3) == ix.tableEnc && FieldHeld(m, ix, pos, addr)
    ensures FieldAt(m, TableOf(m, ix), pos) ==
            Ptr(Target(m.hdr, ix.tableEnc, addr).value, pos + TableOf(m, ix).width)
  {
    hide ReadPtr;
    PointerRoundTrip(m.hdr, pos, pos + TableOf(m, ix).width, ix.tableEnc, addr, 0, m.hdrOffset);
  }

  /** The start location of an entry, as an address of the process. */
  function StartAt(m: Module, ix: Index, i: nat): Word
    requires i < |ix.entries|
  {
    match Target(m.hdr, ix.tableEnc, ix.entries[i].start)
    case Some(start) => AdjustStart(m, start, ix.tableEnc)
    case None => 0
  }

  function StartsOf(m: Module, ix: Index): seq<Word> {
    seq(|ix.entries|, i requires 0 <= i < |ix.entries| => StartAt(m, ix, i))
  }

  /** The offset of an entry's FDE in the frame section. */
  function FdeAt(m: Module, ix: Index, i: nat): Option<nat>
    requires i < |ix.entries|
  {
    match Target(m.hdr, ix.tableEnc, ix.entries[i].fde)
    case Some(fde) => Some(Wrap(fde - m.ehfOffset))
    case None => None
  }

  lemma EntryReads(m: Module, ix: Index, i: nat)
    requires FieldWidth(ix.tableEnc).Some? && HdrByte(m, 3) == ix.tableEnc
    requires i < |ix.entries| && EntryHeld(m, ix, i)
    ensures StartOf(m, TableOf(m, ix), i) == StartAt(m, ix, i)
    ensures Some(FdeOf(m, TableOf(m, ix), i)) == FdeAt(m, ix, i)
  {
    hide FieldAt, EntryAt, AdjustStart, TableOf, Wrap;
    var at := EntryAt(TableOf(m, ix), i);
    FieldReads(m, ix, at, ix.entries[i].start);
    FieldReads(m, ix, at + TableOf(m, ix).width, ix.entries[i].fde);
  }

  /** The search over a laid-out header is a scan of the entries it was made from: the FDE of the
      last entry that starts at or before the pc. */
  lemma IndexFinds(m: Module, ix: Index, pc: Word)
    requires HoldsIndex(m, ix) && Sorted(StartsOf(m, ix)) && NonZero(StartsOf(m, ix))
    ensures match LastAtOrBefore(StartsOf(m, ix), pc)
            case None => FindFde(m, pc) == Unselected
            case Some(i) => FdeAt(m, ix, i).Some? && FindFde(m, pc) == Selected(FdeAt(m, ix, i).value)
    ensures FindFde(m, pc) == Unselected <==> pc < StartsOf(m, ix)[0]
  {
    hide FindFde, OpenTable, EntryHeld, StartAt, FdeAt, StartOf, FdeOf, Consistent;
    var t := TableOf(m, ix);
    IndexOpens(m, ix);
    FixedBytes(m, ix);
    forall i: nat | i < |ix.entries|
      ensures StartOf(m, t, i) == StartAt(m, ix, i) && Some(FdeOf(m, t, i)) == FdeAt(m, ix, i)
    {
      EntryReads(m, ix, i);
    }
    assert Starts(m, t) == StartsOf(m, ix);
    FindFdeIsLast(m, pc, t);
  }
}
