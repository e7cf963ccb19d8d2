/** The binary search table of `.eh_frame_hdr` (section 10.6.2 of LSB Core 5.0) and the search
    for the FDE of a pc. */
module FdeIndex {
  import opened Words
  import opened EncodedPointer

  /** A loaded object: its address range, its header section and its frame section, with the
      offset each section has in the object. */
  datatype Module = Module(
    vmStart: Word, vmEnd: Word, isDynamic: bool,
    hdr: Section, hdrOffset: Word, ehf: Section, ehfOffset: Word)

  const PCREL: nat := 1

  /** A start location turned into an address of the process; 0 stays the error. */
  function AdjustStart(m: Module, start: Word, enc: Byte): Word {
    if start == 0 then 0 else
    var a := if Adjust(enc) == PCREL then Wrap(start - m.ehf.base + m.ehfOffset) else start;
    if m.isDynamic then Wrap(a + m.vmStart) else a
  }

  // ----- the halving search -----

  /** The search gives up on a bad table, runs to its end without selecting anything, or selects. */
  datatype Search = BadTable | Unselected | Selected(found: nat)

  /** The loop on a window of `num` entries from `at`, entered with at least one. */
  function Halve(starts: seq<Word>, pc: Word, at: nat, num: nat): (r: Search)
    requires num >= 1 && at + num <= |starts|
    ensures r.Selected? ==> at <= r.found < at + num
    decreases num
  {
    var mid := at + num / 2;
    if starts[mid] == 0 then BadTable
    else if pc < starts[mid] then
      if num / 2 > 1 then Halve(starts, pc, at, num / 2) else Settle(starts, pc, at, num / 2)
    else
      if (num + 1) / 2 > 1 then Halve(starts, pc, mid, (num + 1) / 2) else Settle(starts, pc, mid, (num + 1) / 2)
  }

  /** The test after the loop. */
  function Settle(starts: seq<Word>, pc: Word, at: nat, num: nat): (r: Search)
    requires num <= 1 && at + num <= |starts|
    ensures r.Selected? ==> r.found == at && num == 1
  {
    if num == 1 && starts[at] != 0 && pc >= starts[at] then Selected(at) else Unselected
  }

  ghost predicate Sorted(starts: seq<Word>) {
    forall i, j :: 0 <= i <= j < |starts| ==> starts[i] <= starts[j]
  }

  ghost predicate NonZero(starts: seq<Word>) {
    forall i :: 0 <= i < |starts| ==> starts[i] != 0
  }

  /** A linear scan for the last entry that starts at or before `pc`. */
  function Scan(starts: seq<Word>, pc: Word): Search {
    match LastAtOrBefore(starts, pc)
    case None => Unselected
    case Some(i) => Selected(i)
  }

  /** Search equals linear scan, from any window that is known to hold the answer. */
  lemma {:induction false} HalveFindsLast(starts: seq<Word>, pc: Word, at: nat, num: nat)
    requires Sorted(starts) && NonZero(starts)
    requires num >= 1 && at + num <= |starts|
    requires AllAfter(starts, pc, at + num) && (at == 0 || starts[at] <= pc)
    ensures Halve(starts, pc, at, num) == Scan(starts, pc)
    decreases num
  {
    var mid := at + num / 2;
    if pc < starts[mid] {
      assert AllAfter(starts, pc, mid);
      if num / 2 > 1 {
        HalveFindsLast(starts, pc, at, num / 2);
      } else {
        SettleFindsLast(starts, pc, at, num / 2);
      }
    } else {
      if (num + 1) / 2 > 1 {
        HalveFindsLast(starts, pc, mid, (num + 1) / 2);
      } else {
        SettleFindsLast(starts, pc, mid, (num + 1) / 2);
      }
    }
  }

  lemma SettleFindsLast(starts: seq<Word>, pc: Word, at: nat, num: nat)
    requires Sorted(starts) && NonZero(starts) && num <= 1 && at + num <= |starts|
    requires AllAfter(starts, pc, at + num) && (at == 0 || (at < |starts| && starts[at] <= pc))
    ensures Settle(starts, pc, at, num) == Scan(starts, pc)
  {
    if at < |starts| && starts[at] <= pc {
      LastIs(starts, pc, at);
    } else {
      NoLast(starts, pc);
    }
  }

  /** In a sorted table nothing starts at or before `pc` exactly when the first entry does not. */
  lemma {:induction false} ScanSelects(starts: seq<Word>, pc: Word)
    requires Sorted(starts) && starts != []
    ensures Scan(starts, pc).Unselected? <==> pc < starts[0]
  {
    if |starts| > 1 && starts[|starts| - 1] > pc {
      ScanSelects(starts[..|starts| - 1], pc);
    }
  }

  /** The loop itself. Its window never leaves the table and splits into two parts whose
      sizes add up to the window; on a sorted table it selects what a linear scan selects. */
  method SearchTable(starts: seq<Word>, pc: Word) returns (r: Search)
    requires |starts| >= 1
    ensures r == Halve(starts, pc, 0, |starts|)
    ensures Sorted(starts) && NonZero(starts) ==> r == Scan(starts, pc)
  {
    if Sorted(starts) && NonZero(starts) {
      HalveFindsLast(starts, pc, 0, |starts|);
    }
    var at: nat, num: nat := 0, |starts|;
    var first := true;
    while first || num > 1
      invariant at + num <= |starts|
      invariant first ==> at == 0 && num == |starts|
      invariant (if first || num > 1 then Halve(starts, pc, at, num) else Settle(starts, pc, at, num))
                == Halve(starts, pc, 0, |starts|)
      decreases num, first
    {
      var mid := at + num / 2;
      assert num / 2 + (num + 1) / 2 == num && at <= mid < at + num;
      if starts[mid] == 0 {
        return BadTable;
      }
      if pc < starts[mid] {
        num := num / 2;
      } else {
        at, num := mid, (num + 1) / 2;
      }
      first := false;
    }
    r := if num == 1 && starts[at] != 0 && pc >= starts[at] then Selected(at) else Unselected;
  }

  // ----- the header -----

  /** The geometry of a header that passed its checks: where the table starts, how wide a field
      is and how many entries there are. */
  datatype HdrTable = HdrTable(at: nat, width: nat, count: nat)

  function FieldWidth(enc: Byte): Option<nat> {
    match Form(enc)
    case 0 => Some(8)
    case 2 => Some(2)
    case 3 => Some(4)
    case 4 => Some(8)
    case _ => None
  }

  /** Entries are two fields wide. */
  function EntryAt(t: HdrTable, i: nat): nat {
    t.at + if t.width == 2 then i * 4 else if t.width == 4 then i * 8 else i * 16
  }

  function WholeEntries(room: nat, width: nat): nat {
    if width == 2 then room / 4 else if width == 4 then room / 8 else room / 16
  }

  function LeftOver(room: nat, width: nat): nat {
    if width == 2 then room % 4 else if width == 4 then room % 8 else room % 16
  }

  function HdrByte(m: Module, i: nat): Byte {
    ByteAt(m.hdr.buf, i)
  }

  /** The checks before the search: version, field width, that the header points at this frame
      section, and that the count fills the section exactly. */
  function OpenTable(m: Module): (r: Option<HdrTable>)
    ensures r.Some? ==> r.value.count >= 1 && EntryAt(r.value, r.value.count) == |m.hdr.buf|
  {
    var end := |m.hdr.buf|;
    if end < 4 || HdrByte(m, 0) != 1 then None else
    var width := FieldWidth(HdrByte(m, 3));
    if width.None? then None else
    var eh := ReadPtr(m.hdr, 4, end, HdrByte(m, 1), 0, m.hdrOffset);
    var ehAt := if Adjust(HdrByte(m, 1)) == PCREL then Wrap(eh.value - m.hdr.base + m.hdrOffset) else eh.value;
    if ehAt != m.ehfOffset then None else
    var n := ReadPtr(m.hdr, eh.pos, end, HdrByte(m, 2), 0, m.hdrOffset);
    var count := n.value % 0x1_0000_0000;
    var room := end - n.pos;
    if count == 0 || count != WholeEntries(room, width.value) || LeftOver(room, width.value) != 0 then None
    else Some(HdrTable(n.pos, width.value, count))
  }

  function FieldAt(m: Module, t: HdrTable, pos: nat): Ptr {
    ReadPtr(m.hdr, pos, pos + t.width, HdrByte(m, 3), 0, m.hdrOffset)
  }

  function StartOf(m: Module, t: HdrTable, i: nat): Word {
    AdjustStart(m, FieldAt(m, t, EntryAt(t, i)).value, HdrByte(m, 3))
  }

  function Starts(m: Module, t: HdrTable): (r: seq<Word>)
    ensures |r| == t.count
  {
    seq(t.count, i requires 0 <= i < t.count => StartOf(m, t, i))
  }

  /** The offset in the frame section that the second field of an entry gives. */
  function FdeOf(m: Module, t: HdrTable, i: nat): nat {
    var after := FieldAt(m, t, EntryAt(t, i)).pos;
    Wrap(FieldAt(m, t, after).value - m.ehfOffset)
  }

  /** The FDE candidate for `pc`, before it is checked. */
  function FindFde(m: Module, pc: Word): Search {
    var t := OpenTable(m);
    if t.None? then BadTable else
    var i := Halve(Starts(m, t.value), pc, 0, t.value.count);
    if i.Selected? then Selected(FdeOf(m, t.value, i.found)) else i
  }

  /** On a header whose start locations are sorted and valid, the FDE found is that of the last
      entry at or before the pc; nothing is selected, which leaves a null FDE to be checked,
      exactly when the pc precedes the first entry. */
  lemma FindFdeIsLast(m: Module, pc: Word, t: HdrTable)
    requires OpenTable(m) == Some(t) && Sorted(Starts(m, t)) && NonZero(Starts(m, t))
    ensures match LastAtOrBefore(Starts(m, t), pc)
            case None => FindFde(m, pc) == Unselected
            case Some(i) => FindFde(m, pc) == Selected(FdeOf(m, t, i))
    ensures FindFde(m, pc) == Unselected <==> pc < Starts(m, t)[0]
  {
    hide OpenTable, Starts, FdeOf;
    HalveFindsLast(Starts(m, t), pc, 0, t.count);
    ScanSelects(Starts(m, t), pc);
  }

  method SearchFde(m: Module, pc: Word) returns (r: Search)
    ensures r == FindFde(m, pc)
  {
    var t := OpenTable(m);
    if t.None? {
      return BadTable;
    }
    r := SearchTable(Starts(m, t.value), pc);
    if r.Selected? {
      r := Selected(FdeOf(m, t.value, r.found));
    }
  }
}
