/** A shared library in bytes, in the encodings that linkers write: pc-relative pointers, a table
    relative to the header, and the usual prologue. It is looked up at every pc of its function, and
    a process of two objects is unwound from the library into the program. */
module TwoObjects {
  import opened Words
  import opened UserMemory
  import opened Leb128
  import opened EncodedPointer
  import opened CfiState
  import opened CfiSemantics
  import opened CfiTable
  import opened FdeIndex
  import opened CieRoundTrip
  import opened IndexRoundTrip
  import opened FrameRecords
  import opened Restore
  import opened Steps
  import opened Unwinder
  import opened LookupCorrect
  import opened EndToEnd
  import opened AbstractUnwind
  import opened SmallObject

  // ----- the bytes -----

  /** Two functions, at 0x1000 and 0x1800, described at 0x2038 and 0x2020; the header itself is at
      0x2000 and the frame section at 0x2020. */
  function LibraryHdr(): seq<Byte> {
    [1, 0x1b, 0x03, 0x3b]
    + [0x1c, 0, 0, 0]
    + [2, 0, 0, 0]
    + [0x00, 0xf0, 0xff, 0xff] + [0x38, 0, 0, 0]
    + [0x00, 0xf8, 0xff, 0xff] + [0x20, 0, 0, 0]
  }

  /** A CIE with pc-relative pointers in its FDEs. */
  function LibraryCie(): seq<Byte> {
    [20, 0, 0, 0] + [0, 0, 0, 0]
    + ([1, 0x7a, 0x52, 0, 1, 0x78, 16, 1, 0x1b] + [0x0c, 7, 8, 0x90, 1, 0, 0])
  }

  /** 0x100 bytes at 0x1000 that push rbp and move rsp to it. */
  function LibraryFde(): seq<Byte> {
    [24, 0, 0, 0] + [28, 0, 0, 0]
    + ([0xc0, 0xef, 0xff, 0xff] + [0x00, 0x01, 0, 0] + [0]
       + [0x41, 0x0e, 16, 0x86, 2, 0x43, 0x0d, 6, 0, 0, 0])
  }

  function Library(): Module {
    Module(0x10_0000, 0x11_0000, true,
           Section(LibraryHdr(), 0xc000, map[]), 0x2000,
           Section(LibraryCie() + LibraryFde(), 0xd000, map[]), 0x2020)
  }

  // ----- what they encode -----

  function LibraryIndex(): Index {
    Index(1, 0x1b, 0x03, 0x3b, 0xc020, 2, [Pair(0x1000, 0x2038), Pair(0x1800, 0x2020)])
  }

  function LibraryHeader(): Header {
    Header(1, Some([PtrEncoding(0x1b)]), 1, -8, 16)
  }

  function Prologue(): seq<Instr> {
    [AdvanceLoc(1), DefCfaOffset(16), Offset(6, 2), AdvanceLoc(3), DefCfaRegister(6), Nop, Nop, Nop]
  }

  function LibraryImage(): Image {
    Image(LibraryIndex(), 0, LibraryHeader(), CieProgram(), 24, FdeHeader(0xbfe0, 0x100, []), Prologue())
  }

  // ----- the bytes are the encoding -----

  lemma IntBytes(x: nat)
    requires x < TWO32
    ensures ToLittleEndian(x, INT_SIZE) == [x % 256, x / 256 % 256, x / 0x1_0000 % 256, x / 0x100_0000]
  {
    assert x / 256 / 256 == x / 0x1_0000 && x / 0x1_0000 / 256 == x / 0x100_0000;
    assert ToLittleEndian(x / 0x100_0000, 1) == [x / 0x100_0000] + ToLittleEndian(0, 0);
    assert ToLittleEndian(x / 0x1_0000, 2) == [x / 0x1_0000 % 256] + ToLittleEndian(x / 0x100_0000, 1);
    assert ToLittleEndian(x / 256, 3) == [x / 256 % 256] + ToLittleEndian(x / 0x1_0000, 2);
  }

  /** A signed four-byte pointer relative to something. */
  lemma RelativePointer(base: Word, pos: nat, enc: Byte, addr: Word, data: Word, distance: int)
    requires enc == 0x1b || enc == 0x3b
    requires -0x8000 <= distance < 0x8000
    requires addr == distance + if enc == 0x1b then base + pos else data
    ensures PtrFits(base, pos, enc, addr, 0, data)
    ensures var x := if distance < 0 then distance + 0x1_0000_0000 else distance;
            EncodePtr(base, pos, enc, addr, 0, data) == [x % 256, x / 256 % 256, x / 0x1_0000 % 256, x / 0x100_0000]
  {
    hide ToLittleEndian;
    assert Unbiased(base, pos, enc, addr, 0, data) == Wrap(distance);
    IntBytes(if distance < 0 then distance + 0x1_0000_0000 else distance);
  }

  lemma HdrPieces()
    ensures var b := LibraryHdr();
            && |b| == 28 && Holds(b, 0, [1, 0x1b, 0x03, 0x3b])
            && Holds(b, 4, [0x1c, 0, 0, 0]) && Holds(b, 8, [2, 0, 0, 0])
            && Holds(b, 12, [0x00, 0xf0, 0xff, 0xff]) && Holds(b, 16, [0x38, 0, 0, 0])
            && Holds(b, 20, [0x00, 0xf8, 0xff, 0xff]) && Holds(b, 24, [0x20, 0, 0, 0])
  {
  }

  lemma TableIs()
    ensures TableOf(Library(), LibraryIndex()) == HdrTable(12, 4, 2)
  {
    hide EncodePtr, PtrFits;
    RelativePointer(0xc000, FIXED, 0x1b, 0xc020, 0x2000, 0x1c);
    DirectPointer(0xc000, 8, 2, 0x2000);
  }

  lemma EntriesHeld()
    ensures EntryHeld(Library(), LibraryIndex(), 0) && EntryHeld(Library(), LibraryIndex(), 1)
  {
    hide EncodePtr, PtrFits, TableOf, Holds, LibraryHdr;
    TableIs();
    HdrPieces();
    RelativePointer(0xc000, 12, 0x3b, 0x1000, 0x2000, -0x1000);
    RelativePointer(0xc000, 16, 0x3b, 0x2038, 0x2000, 0x38);
    RelativePointer(0xc000, 20, 0x3b, 0x1800, 0x2000, -0x800);
    RelativePointer(0xc000, 24, 0x3b, 0x2020, 0x2000, 0x20);
  }

  lemma LibraryIndexHeld()
    ensures HoldsIndex(Library(), LibraryIndex())
  {
    hide EncodePtr, PtrFits, TableOf, EntryHeld, Holds, LibraryHdr;
    TableIs();
    HdrPieces();
    EntriesHeld();
    RelativePointer(0xc000, FIXED, 0x1b, 0xc020, 0x2000, 0x1c);
    DirectPointer(0xc000, 8, 2, 0x2000);
  }

  lemma LibraryLeads(pc: Word)
    requires 0x10_1000 <= pc < 0x10_1800
    ensures Leads(Library(), LibraryIndex(), pc, 24)
  {
    hide HoldsIndex;
    LibraryIndexHeld();
    var starts := StartsOf(Library(), LibraryIndex());
    assert starts == [0x10_1000, 0x10_1800];
    LastIs(starts, pc, 0);
  }

  lemma LibraryHeaderBytes()
    ensures EncodeHeader(LibraryHeader()) == [1, 0x7a, 0x52, 0, 1, 0x78, 16, 1, 0x1b] && WellFormed(LibraryHeader())
    ensures Augs(LibraryHeader()) == [PtrEncoding(0x1b)] && AllData(Augs(LibraryHeader())) == [0x1b]
    ensures PointerEncoding(Augs(LibraryHeader()), 0) == 0x1b && CallFrame(Augs(LibraryHeader()), 1) == 1
  {
    var augs := Augs(LibraryHeader());
    assert augs[1..] == [];
    assert AllData(augs) == [0x1b] && Letters(augs) == ['R' as int];
    assert SlebEncode(-8) == [0x78] && UlebEncode(1) == [1];
  }

  lemma EncodeCons(i: Instr, rest: seq<Instr>)
    requires Encodable(i) && AllEncodable(rest)
    ensures AllEncodable([i] + rest) && EncodeAll([i] + rest) == Encode(i) + EncodeAll(rest)
  {
    assert ([i] + rest)[1..] == rest;
  }

  lemma PrologueParts()
    ensures Encode(AdvanceLoc(1)) == [0x41] && Encode(DefCfaOffset(16)) == [0x0e, 16]
    ensures Encode(Offset(6, 2)) == [0x86, 2]
    ensures Encode(AdvanceLoc(3)) == [0x43] && Encode(DefCfaRegister(6)) == [0x0d, 6]
  {
  }

  lemma PrologueTail()
    ensures var p := [AdvanceLoc(3), DefCfaRegister(6), Nop, Nop, Nop];
            AllEncodable(p) && EncodeAll(p) == [0x43, 0x0d, 6, 0, 0, 0]
  {
    hide EncodeAll, Encode, Nops;
    PrologueParts();
    NopBytes(3);
    ThreeNops();
    var p5 := Nops(3);
    var p4 := [DefCfaRegister(6)] + p5;
    EncodeCons(DefCfaRegister(6), p5);
    EncodeCons(AdvanceLoc(3), p4);
    assert EncodeAll(p5) == [0, 0, 0];
    assert EncodeAll(p4) == [0x0d, 6, 0, 0, 0];
    assert [AdvanceLoc(3), DefCfaRegister(6), Nop, Nop, Nop] == [AdvanceLoc(3)] + p4;
  }

  lemma PrologueBytes()
    ensures AllEncodable(Prologue()) && EncodeAll(Prologue()) == [0x41, 0x0e, 16, 0x86, 2, 0x43, 0x0d, 6, 0, 0, 0]
  {
    hide EncodeAll, Encode, AllEncodable;
    PrologueParts();
    PrologueTail();
    var p3 := [AdvanceLoc(3), DefCfaRegister(6), Nop, Nop, Nop];
    var p2 := [Offset(6, 2)] + p3;
    var p1 := [DefCfaOffset(16)] + p2;
    EncodeCons(Offset(6, 2), p3);
    EncodeCons(DefCfaOffset(16), p2);
    EncodeCons(AdvanceLoc(1), p1);
    assert Prologue() == [AdvanceLoc(1)] + p1;
  }

  lemma ThreeNops()
    ensures Nops(3) == [Nop, Nop, Nop]
  {
    assert Nops(1) == [Nop];
    assert Nops(2) == [Nop, Nop];
  }

  lemma LibraryFdeHeaderBytes()
    ensures var f := FdeHeader(0xbfe0, 0x100, []);
            && EncodeFde(0xd000, 24, 0x1b, true, f) == [0xc0, 0xef, 0xff, 0xff] + [0x00, 0x01, 0, 0] + [0]
            && WellFormedFde(Library().ehf, 24, 0x1b, f)
  {
    hide ToLittleEndian, EncodePtr, PtrFits;
    RelativePointer(0xd000, 32, 0x1b, 0xbfe0, 0, -0x1040);
    IntBytes(0x100);
    assert UlebEncode(0) == [0];
  }

  lemma LibraryFramesHeld()
    ensures HoldsFrames(Library().ehf, LibraryImage())
  {
    hide EncodeHeader, EncodeAll, EncodeFde, WellFormed, WellFormedFde, ToLittleEndian, AllEncodable, AllData;
    hide PointerEncoding, Holds;
    var sec, img := Library().ehf, LibraryImage();
    LibraryHeaderBytes();
    ProgramBytes();
    PrologueBytes();
    LibraryFdeHeaderBytes();
    WordBytes(20);
    WordBytes(24);
    WordBytes(28);
    WordBytes(0);
    assert LibraryCie() == Record(0, CieBody(img));
    assert LibraryFde() == Record(28, FdeBody(sec.base, img));
    HoldsBoth(LibraryCie(), LibraryFde());
    assert PersonalitiesHeld(sec, img);
  }

  // ----- the table -----

  const START: Word := 0x10_1000
  const MINUS_16: Word := 0xffff_ffff_ffff_fff0

  /** Before the push, after it, and once rbp is set. */
  function RowBefore(): TableRow {
    Middle(START).row
  }

  function RowPushed(): TableRow {
    TableRow(RegisterPlus(7, 16), RowBefore().rules[6 := SavedAt(MINUS_16)])
  }

  function RowFramed(): TableRow {
    TableRow(RegisterPlus(6, 16), RowPushed().rules)
  }

  function PrologueTable(): seq<Entry<TableRow>> {
    [Entry(START, RowBefore()), Entry(START + 1, RowPushed()), Entry(START + 4, RowFramed())]
  }

  lemma TableCons(al: Alignment, i: Instr, rest: seq<Instr>, m: Machine)
    requires WfStack(m) && Perform(al, i, m).Next?
    ensures var r := Perform(al, i, m).m;
            && WfStack(r)
            && AbsTable(al, [i] + rest, m) ==
               (if r.loc != m.loc then [Entry(m.loc, m.row)] else []) + AbsTable(al, rest, r)
            && PerformAll(al, [i] + rest, m) == PerformAll(al, rest, r)
            && Reach(al, [i] + rest) == Product(DeltaOf(i), al.code) + Reach(al, rest)
  {
    hide Perform, Product;
    PerformKeepsShape(al, i, m);
    assert ([i] + rest)[1..] == rest;
  }

  lemma PrologueRuns()
    ensures var al, mid := Alignment(1, -8), Middle(START);
            && AbsTable(al, Prologue(), mid) == PrologueTable()
            && PerformAll(al, Prologue(), mid).Next? && Reach(al, Prologue()) == 4
  {
    hide AbsTable, PerformAll, Reach, Nops;
    var al, m0 := Alignment(1, -8), Middle(START);
    var m1 := m0.(loc := START + 1);
    var m2 := m1.(row := TableRow(RegisterPlus(7, 16), m0.row.rules));
    var m3 := m1.(row := RowPushed());
    var m4 := m3.(loc := START + 4);
    var m5 := m4.(row := RowFramed());
    Moves(al, m0, m1, m3, m4);
    Edits(al, m1, m2, m3, m4, m5);
    ThreeNops();
    var p5 := Nops(3);
    var p4 := [DefCfaRegister(6)] + p5;
    var p3 := [AdvanceLoc(3)] + p4;
    var p2 := [Offset(6, 2)] + p3;
    var p1 := [DefCfaOffset(16)] + p2;
    assert Prologue() == [AdvanceLoc(1)] + p1;
    TableCons(al, AdvanceLoc(1), p1, m0);
    TableCons(al, DefCfaOffset(16), p2, m1);
    TableCons(al, Offset(6, 2), p3, m2);
    TableCons(al, AdvanceLoc(3), p4, m3);
    TableCons(al, DefCfaRegister(6), p5, m4);
    NopsRun(al, 3, m5);
  }

  lemma Moves(al: Alignment, m0: Machine, m1: Machine, m3: Machine, m4: Machine)
    requires al.code == 1 && m0.loc == START && m3.loc == START + 1 && WfMachine(m0) && WfMachine(m3)
    requires m1 == m0.(loc := START + 1) && m4 == m3.(loc := START + 4)
    ensures Perform(al, AdvanceLoc(1), m0) == Next(m1) && Perform(al, AdvanceLoc(3), m3) == Next(m4)
    ensures Product(1, al.code) == 1 && Product(3, al.code) == 3 && Product(0, al.code) == 0
  {
  }

  lemma Edits(al: Alignment, m1: Machine, m2: Machine, m3: Machine, m4: Machine, m5: Machine)
    requires al.data == -8 && WfMachine(m1) && m1.row == RowBefore()
    requires m2 == m1.(row := TableRow(RegisterPlus(7, 16), m1.row.rules)) && m3 == m1.(row := RowPushed())
    requires WfMachine(m4) && m4.row == RowPushed() && m5 == m4.(row := RowFramed())
    ensures Perform(al, DefCfaOffset(16), m1) == Next(m2)
    ensures Perform(al, Offset(6, 2), m2) == Next(m3)
    ensures Perform(al, DefCfaRegister(6), m4) == Next(m5)
  {
    assert Product(2, -8) == -16;
  }

  /** The row that the prologue has at a pc of its function. */
  function ExpectedRow(pc: Word): TableRow {
    if pc < START + 1 then RowBefore() else if pc < START + 4 then RowPushed() else RowFramed()
  }

  lemma TableAt(pc: Word)
    requires START <= pc
    ensures RowAt(PrologueTable(), pc) == Some(ExpectedRow(pc))
  {
    var locs := Locs(PrologueTable());
    assert locs == [START, START + 1, START + 4];
    LastIs(locs, pc, if pc < START + 1 then 0 else if pc < START + 4 then 1 else 2);
  }

  // ----- look-ups -----

  function LibraryDescription(): Description {
    Description(1, LibraryImage(), START, Middle(START))
  }

  lemma LibraryDescribes(pc: Word)
    requires START <= pc <= START + 0x100
    ensures Describes(Library(), pc, LibraryDescription())
    ensures DescribedRow(LibraryDescription(), pc) == Some(ExpectedRow(pc))
    ensures DescribedCallFrame(LibraryDescription()) == 1
  {
    hide AbsTable, PerformAll, Reach, HoldsFrames, Leads, ExpectedRow, PrologueTable, RowAt;
    LibraryLeads(pc);
    LibraryFramesHeld();
    LibraryHeaderBytes();
    CieRuns(START);
    PrologueRuns();
    TableAt(pc);
  }

  /** At any pc of the function the look-up, through the relative table and the relative pointers of
      a mapped library, gives the row the prologue has there; beyond the function it is past the
      end. */
  lemma LibraryLooksUp(pc: Word)
    requires START <= pc < START + 0x800
    ensures if pc > START + 0x100 then LookUpIn(Library(), pc) == PastEnd else
            && LookUpIn(Library(), pc).At?
            && var d := LookUpIn(Library(), pc).found;
               && d.ret == 16 && d.callFrame == 1
               && d.row.cfa == (if pc == START then RegOff(7, 8)
                                else if pc < START + 4 then RegOff(7, 16) else RegOff(6, 16))
               && d.row.regs[6] == (if pc == START then Same else Memory(MINUS_16))
               && d.row.regs[16] == Memory(MINUS_8) && d.row.regs[7] == Same
  {
    hide LookUpIn, HoldsFrames, Leads, AbsRow, AbsTable, PerformAll, Reach, RowAt;
    LibraryLeads(pc);
    LibraryFramesHeld();
    LibraryHeaderBytes();
    if pc > START + 0x100 {
      LookUpPastEnd(Library(), LibraryImage(), pc, START);
    } else {
      LibraryDescribes(pc);
      LookUpEndToEnd(Library(), LibraryImage(), pc, START, Middle(START));
      var row := LookUpIn(Library(), pc).found.row;
      RowItems(Library().ehf.buf, row);
    }
  }

  lemma RowItems(buf: seq<Byte>, row: Row)
    requires WfRow(row)
    ensures var t := AbsRow(buf, row);
            && (t.cfa.RegisterPlus? ==> row.cfa == RegOff(t.cfa.reg, t.cfa.off))
            && forall i :: 0 <= i < COLUMNS ==>
                 && (t.rules[i].SavedAt? ==> row.regs[i] == Memory(t.rules[i].off))
                 && (t.rules[i].Preserved? ==> row.regs[i] == Same)
  {
    hide BlockAt;
  }

  // ----- a process of two objects -----

  /** The program first, then the library. */
  function Both(): Process {
    [Object(), Library()]
  }

  function Code(): Word -> Description {
    (pc: Word) => if pc < 0x10_0000 then SmallDescription() else LibraryDescription()
  }

  /** Stopped in the library at 0x101050, with rbp 0xff0. */
  function InLibrary(): (f: Frame)
    ensures WfFrame(f) && PcOf(f) == 0x10_1050
  {
    Frame(seq(COLUMNS, i => if i == 6 then 0xff0 else if i == 16 then 0x10_1050 else 0), 0)
  }

  lemma ObjectFrame(mem: Memory, f: Frame, n: nat)
    requires WfFrame(f) && 0x1400 <= PcOf(f) <= 0x2400 && n > 0
    requires ReadWord(mem, Wrap(CfaOf(RowBefore(), f.regs) - 8)).Some?
    requires var r := RestoreBy(RowBefore(), f.regs, mem);
             r.Some? && Described(Both(), Code(), mem, Frame(r.value, 1), n - 1)
    ensures Described(Both(), Code(), mem, f, n)
  {
    hide Describes, DescribedRow, RestoreBy, ReadWord, DescribedCallFrame;
    ObjectDescribes(PcOf(f));
    assert Middle(0x1400).row == RowBefore();
    assert Ordinary(RowBefore(), PC_COLUMN, f.regs, mem);
  }

  lemma LibraryFrame(mem: Memory, f: Frame, n: nat)
    requires WfFrame(f) && START + 4 <= PcOf(f) <= START + 0x100 && n > 0
    requires ReadWord(mem, Wrap(CfaOf(RowFramed(), f.regs) - 8)).Some?
    requires ReadWord(mem, Wrap(CfaOf(RowFramed(), f.regs) + MINUS_16)).Some?
    requires var r := RestoreBy(RowFramed(), f.regs, mem);
             r.Some? && Described(Both(), Code(), mem, Frame(r.value, 1), n - 1)
    ensures Described(Both(), Code(), mem, f, n)
  {
    hide Describes, DescribedRow, RestoreBy, ReadWord, DescribedCallFrame;
    LibraryDescribes(PcOf(f));
    assert Ordinary(RowFramed(), PC_COLUMN, f.regs, mem);
  }

  /** Unwinding from the library into the program: the second object is found, its function's frame
      is undone by rbp, and the caller's pc is reported. */
  lemma AcrossObjects(w: World, sr: Surroundings)
    requires WfWorld(w) && WfSurroundings(sr)
    requires ReadWord(w.mem, 0xff0).Some? && ReadWord(w.mem, 0xff8) == Some(0x2000) && ReadWord(w.mem, 0x1000).Some?
    ensures Described(Both(), Code(), w.mem, InLibrary(), 2)
    ensures RunFresh(ObjectsOf(Both()), w, InLibrary(), 2).entries == [0x10_1050, 0x1fff]
  {
    hide ReadWord, Described, RunFresh, ObjectsOf;
    var f := InLibrary();
    var next := Frame(RestoreBy(RowFramed(), f.regs, w.mem).value, 1);
    assert next.regs[RSP] == 0x1000 && next.regs[PC_COLUMN] == 0x2000 by { MinusEight(0x1000); }
    var last := Frame(RestoreBy(RowBefore(), next.regs, w.mem).value, 1);
    assert Described(Both(), Code(), w.mem, last, 0) by { NoneDescribed(w.mem, last); }
    ObjectFrame(w.mem, next, 1);
    LibraryFrame(w.mem, f, 2);
    BacktraceIsAbstract(Both(), Code(), w, sr, f, 2, 2, 0);
    BacktraceIsAbstract(Both(), Code(), w, sr, f, 2, 2, 1);
    assert AbstractWalk(Code(), w.mem, f, 1) == Some(next) by { OneWalk(w.mem, f); }
  }

  lemma NoneDescribed(mem: Memory, f: Frame)
    requires WfFrame(f)
    ensures Described(Both(), Code(), mem, f, 0)
  {
  }

  lemma OneWalk(mem: Memory, f: Frame)
    requires WfFrame(f) && START + 4 <= PcOf(f) <= START + 0x100 && RestoreBy(RowFramed(), f.regs, mem).Some?
    ensures AbstractWalk(Code(), mem, f, 1) == Some(Frame(RestoreBy(RowFramed(), f.regs, mem).value, 1))
  {
    hide DescribedRow, RestoreBy, DescribedCallFrame, Describes, AbstractWalk;
    LibraryDescribes(PcOf(f));
    WalkOnce(Code(), mem, f, RowFramed());
  }
}
