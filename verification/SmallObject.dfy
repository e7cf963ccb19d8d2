/** One loaded object, byte by byte: it meets every hypothesis of the whole look-up, and a process
    made of it shows the cache giving a wrong backtrace. */
module SmallObject {
  import opened Words
  import opened UserMemory
  import opened Leb128
  import opened EncodedPointer
  import opened CfiState
  import opened CfiSemantics
  import opened CfiTable
  import opened FdeIndex
  import opened CieRoundTrip
  import opened IndexRoundTrip
  import opened FrameRecords
  import opened Restore
  import opened Steps
  import opened Unwinder
  import opened LookupCorrect
  import opened EndToEnd
  import opened Backtrace
  import opened AbstractUnwind

  // ----- the bytes -----

  /** An index of one entry: code from 0x1400 on is described at 0x4014. */
  function HdrBytes(): seq<Byte> {
    [1, 0x00, 0x03, 0x00]
    + [0x00, 0x40, 0, 0, 0, 0, 0, 0]
    + [1, 0, 0, 0]
    + [0x00, 0x14, 0, 0, 0, 0, 0, 0]
    + [0x14, 0x40, 0, 0, 0, 0, 0, 0]
  }

  /** A CIE without augmentation: code factor 1, data factor -8, return address in column 16, CFA
      at rsp + 8, the return address just below it. */
  function CieBytes(): seq<Byte> {
    [16, 0, 0, 0] + [0, 0, 0, 0] + ([1, 0, 1, 0x78, 16] + [0x0c, 7, 8, 0x90, 1, 0, 0])
  }

  /** An FDE for 0x1000 bytes from 0x1400 on, with nothing to add. */
  function FdeBytes(): seq<Byte> {
    [24, 0, 0, 0] + [24, 0, 0, 0]
    + ([0x00, 0x14, 0, 0, 0, 0, 0, 0] + [0x00, 0x10, 0, 0, 0, 0, 0, 0] + [0, 0, 0, 0])
  }

  function Object(): Module {
    Module(0x1000, 0x3000, false,
           Section(HdrBytes(), 0xa000, map[]), 0x5000,
           Section(CieBytes() + FdeBytes(), 0xb000, map[]), 0x4000)
  }

  // ----- what they encode -----

  function Nops(n: nat): (r: seq<Instr>)
    ensures |r| == n
  {
    if n == 0 then [] else [Nop] + Nops(n - 1)
  }

  function SmallIndex(): Index {
    Index(1, 0x00, 0x03, 0x00, 0x4000, 1, [Pair(0x1400, 0x4014)])
  }

  function SmallHeader(): Header {
    Header(1, None, 1, -8, 16)
  }

  function CieProgram(): seq<Instr> {
    [DefCfa(7, 8), Offset(16, 1), Nop, Nop]
  }

  function SmallImage(): Image {
    Image(SmallIndex(), 0, SmallHeader(), CieProgram(), 20, FdeHeader(0x1400, 0x1000, []), Nops(4))
  }

  // ----- the bytes are the encoding -----

  lemma {:induction false} ZeroBytes(n: nat)
    ensures ToLittleEndian(0, n) == seq(n, _ => 0)
  {
    if n > 0 {
      ZeroBytes(n - 1);
    }
  }

  lemma ShortBytes(x: nat, n: nat)
    requires n >= 2 && x < 0x1_0000
    ensures ToLittleEndian(x, n) == [x % 256, x / 256] + seq(n - 2, _ => 0)
  {
    ZeroBytes(n - 2);
    assert ToLittleEndian(x / 256, n - 1) == [x / 256] + ToLittleEndian(0, n - 2);
  }

  lemma WordBytes(x: nat)
    requires x < 0x1_0000
    ensures ToLittleEndian(x, LONG_SIZE) == [x % 256, x / 256, 0, 0, 0, 0, 0, 0]
    ensures ToLittleEndian(x, INT_SIZE) == [x % 256, x / 256, 0, 0]
  {
    ShortBytes(x, LONG_SIZE);
    ShortBytes(x, INT_SIZE);
  }

  lemma DirectPointer(base: Word, pos: nat, addr: Word, data: Word)
    requires addr < 0x1_0000
    ensures PtrFits(base, pos, 0x00, addr, 0, data) && PtrFits(base, pos, 0x03, addr, 0, data)
    ensures EncodePtr(base, pos, 0x00, addr, 0, data) == [addr % 256, addr / 256, 0, 0, 0, 0, 0, 0]
    ensures EncodePtr(base, pos, 0x03, addr, 0, data) == [addr % 256, addr / 256, 0, 0]
  {
    hide ToLittleEndian;
    WordBytes(addr);
  }

  lemma IndexHeld()
    ensures HoldsIndex(Object(), SmallIndex())
  {
    hide EncodePtr, PtrFits;
    var m, ix := Object(), SmallIndex();
    DirectPointer(m.hdr.base, FIXED, 0x4000, m.hdrOffset);
    DirectPointer(m.hdr.base, 12, 1, m.hdrOffset);
    DirectPointer(m.hdr.base, 16, 0x1400, m.hdrOffset);
    DirectPointer(m.hdr.base, 24, 0x4014, m.hdrOffset);
    assert EntryHeld(m, ix, 0);
  }

  lemma Leading(pc: Word)
    requires 0x1400 <= pc
    ensures Leads(Object(), SmallIndex(), pc, 20)
  {
    hide HoldsIndex;
    IndexHeld();
    var starts := StartsOf(Object(), SmallIndex());
    assert starts == [0x1400];
    LastIs(starts, pc, 0);
  }

  lemma ProgramBytes()
    ensures AllEncodable(CieProgram()) && EncodeAll(CieProgram()) == [0x0c, 7, 8, 0x90, 1, 0, 0]
  {
    var prog := CieProgram();
    assert AllEncodable(prog[1..]) && AllEncodable(prog[2..]) && AllEncodable(prog[3..]) && AllEncodable([]);
    assert prog[1..][1..] == prog[2..] && prog[2..][1..] == prog[3..] && prog[3..][1..] == [];
    assert EncodeAll(prog[2..]) == [0, 0] by {
      assert EncodeAll(prog[3..]) == Encode(Nop) + EncodeAll([]);
      assert EncodeAll(prog[2..]) == Encode(Nop) + EncodeAll(prog[3..]);
    }
    assert Encode(prog[1]) == [0x90, 1];
    assert Encode(prog[0]) == [0x0c, 7, 8];
    assert EncodeAll(prog[1..]) == Encode(prog[1]) + EncodeAll(prog[2..]);
  }

  lemma {:induction false} NopBytes(n: nat)
    ensures AllEncodable(Nops(n)) && EncodeAll(Nops(n)) == seq(n, _ => 0)
  {
    if n > 0 {
      NopBytes(n - 1);
      assert Nops(n)[1..] == Nops(n - 1);
    }
  }

  lemma HeaderBytes()
    ensures EncodeHeader(SmallHeader()) == [1, 0, 1, 0x78, 16] && WellFormed(SmallHeader())
    ensures Augs(SmallHeader()) == [] && AllData([]) == []
  {
    assert SlebEncode(-8) == [0x78];
    assert UlebEncode(1) == [1];
  }

  lemma FdeHeaderBytes(base: Word)
    ensures var f := FdeHeader(0x1400, 0x1000, []);
            EncodeFde(base, 20, 0, false, f) == [0x00, 0x14, 0, 0, 0, 0, 0, 0] + [0x00, 0x10, 0, 0, 0, 0, 0, 0]
  {
    hide ToLittleEndian, EncodePtr;
    DirectPointer(base, 28, 0x1400, 0);
    WordBytes(0x1000);
  }

  lemma HoldsBoth(a: seq<Byte>, b: seq<Byte>)
    ensures Holds(a + b, 0, a) && Holds(a + b, |a|, b)
  {
  }

  lemma FramesHeld()
    ensures HoldsFrames(Object().ehf, SmallImage())
  {
    hide EncodeHeader, EncodeAll, EncodeFde, WellFormed, ToLittleEndian, AllEncodable, AllData, PtrFits, EncodePtr;
    hide Holds;
    var sec, img := Object().ehf, SmallImage();
    HeaderBytes();
    ProgramBytes();
    NopBytes(4);
    FdeHeaderBytes(sec.base);
    WordBytes(16);
    WordBytes(24);
    WordBytes(0);
    DirectPointer(sec.base, 28, 0x1400, 0);
    assert CieBytes() == Record(0, CieBody(img));
    assert FdeBytes() == Record(24, FdeBody(sec.base, img));
    HoldsBoth(CieBytes(), FdeBytes());
  }

  // ----- the look-up -----

  /** The row both programs describe: CFA at sp + 8, the return address just below it. */
  function PlainRow(): (r: Row)
    ensures WfRow(r) && Standard(r)
  {
    Row(RegOff(7, 8), seq(COLUMNS, _ => Same)[PC_COLUMN := Memory(MINUS_8)])
  }

  /** The machine after the CIE's program. */
  function Middle(startLoc: Word): (m: Machine)
    ensures WfStack(m)
  {
    var rules := seq(COLUMNS, _ => Preserved)[PC_COLUMN := SavedAt(MINUS_8)];
    Machine(startLoc, TableRow(RegisterPlus(7, 8), rules), [], rules)
  }

  lemma CieRuns(startLoc: Word)
    ensures var first := PerformAll(Alignment(1, -8), CieProgram(), InitialMachine(startLoc));
            first.Next? && Established(first.m) == Middle(startLoc)
  {
    var al, prog := Alignment(1, -8), CieProgram();
    var m0 := InitialMachine(startLoc);
    var m1 := Perform(al, prog[0], m0).m;
    var m2 := Perform(al, prog[1], m1).m;
    assert prog[1..][1..] == prog[2..] && prog[2..][1..] == prog[3..] && prog[3..][1..] == [];
    assert PerformAll(al, prog[3..], m2) == Next(m2) by { assert PerformAll(al, [], m2) == Next(m2); }
    assert PerformAll(al, prog[2..], m2) == Next(m2);
    assert PerformAll(al, prog[1..], m1) == Next(m2);
    assert m2.row.rules == Middle(startLoc).row.rules by { assert Product(1, -8) == -8; }
  }

  lemma {:induction false} NopsRun(al: Alignment, n: nat, m: Machine)
    requires WfStack(m)
    ensures PerformAll(al, Nops(n), m) == Next(m) && AbsTable(al, Nops(n), m) == [Entry(m.loc, m.row)]
    ensures Reach(al, Nops(n)) == 0
  {
    if n > 0 {
      NopsRun(al, n - 1, m);
      assert Nops(n)[1..] == Nops(n - 1);
      assert Product(0, al.code) == 0;
    }
  }

  /** Rules without expressions stand for one item only. */
  lemma PlainRowIs(buf: seq<Byte>, row: Row)
    requires WfRow(row) && AbsRow(buf, row) == Middle(0x1400).row
    ensures row == PlainRow()
  {
    forall i | 0 <= i < COLUMNS
      ensures row.regs[i] == PlainRow().regs[i]
    {
      assert AbsItem(buf, row.regs[i]) == AbsRow(buf, row).rules[i];
    }
  }

  /** Looking up any pc of the object's code takes the search, the checks, both parsers and both
      programs to the plain row. */
  lemma ObjectLooksUp(pc: Word)
    requires 0x1400 <= pc <= 0x2400
    ensures LookUpIn(Object(), pc) == At(Found(PlainRow(), PC_COLUMN, 1))
  {
    hide LookUpIn, AbsTable, PerformAll, Reach, AbsRow, HoldsFrames, Leads;
    var m, img, mid := Object(), SmallImage(), Middle(0x1400);
    Leading(pc);
    FramesHeld();
    CieRuns(0x1400);
    NopsRun(AlignmentOf(img), 4, mid);
    HeaderBytes();
    LookUpEndToEnd(m, img, pc, 0x1400, mid);
    RowOfCons(Entry(mid.loc, mid.row), [], pc);
    PlainRowIs(m.ehf.buf, LookUpIn(m, pc).found.row);
  }

  /** A pc of the object before its only FDE makes the code read a null FDE. */
  lemma ObjectFaults(pc: Word)
    requires pc < 0x1400
    ensures LookUpIn(Object(), pc) == NullFde
  {
    hide FindFde, HoldsIndex;
    IndexHeld();
    var starts := StartsOf(Object(), SmallIndex());
    assert starts == [0x1400];
    IndexFinds(Object(), SmallIndex(), pc);
  }

  lemma ProcessLooksUp(pc: Word)
    requires 0x1400 <= pc <= 0x2400
    ensures var o := ObjectsOf([Object()]);
            o.known(pc) && o.lookup(pc) == At(Found(PlainRow(), PC_COLUMN, 1))
  {
    hide LookUpIn;
    ObjectLooksUp(pc);
    assert ModuleFor([Object()], pc) == Some(Object());
  }

  // ----- the cache gets it wrong -----

  /** A process stopped at pc 0x1500 with sp 0x1000. */
  function Stopped(): (f: Frame)
    ensures WfFrame(f) && PcOf(f) == 0x1500
  {
    Frame(seq(COLUMNS, i => if i == RSP then 0x1000 else if i == PC_COLUMN then 0x1500 else 0), 0)
  }

  predicate Begins(t: Trace, a: Word, b: Word) {
    |t.entries| >= 2 && t.entries[0] == a && t.entries[1] == b
  }

  /** The first step, from the empty cache. */
  lemma FirstStep(w: World)
    requires WfWorld(w) && ReadWord(w.mem, 0x1000) == Some(0x2000)
    ensures var o, f := ObjectsOf([Object()]), Stopped();
            var s := StepFresh(o, w, f);
            var a := ApplyTdep(f.regs, Project(PlainRow(), 0x1500, PC_COLUMN), w.mem);
            && a.ok && a.regs[PC_COLUMN] == 0x2000
            && StepCached(o, w, f, map[]) == s && s.code.Continue? && PcOf(s.frame) == 0x1fff
  {
    hide ReadWord, ObjectsOf, StepFresh, StepCached, CacheAfter;
    ProcessLooksUp(0x1500);
    ColdStep(ObjectsOf([Object()]), w, Stopped());
  }

  /** With the return address 0x2000 on the stack, two backtraces in a row of this process disagree
      on the second entry, and it is the first one, from the empty cache, that is right. */
  lemma TransparencyFails(w: World, max: nat, first: Trace)
    requires WfWorld(w) && ReadWord(w.mem, 0x1000) == Some(0x2000) && max >= 2
    requires first == RunCached(ObjectsOf([Object()]), w, Stopped(), map[], max)
    ensures WfEntries(first.cache)
    ensures Begins(RunFresh(ObjectsOf([Object()]), w, Stopped(), max), 0x1500, 0x1fff)
    ensures Begins(first, 0x1500, 0x1fff)
    ensures Begins(RunCached(ObjectsOf([Object()]), w, Stopped(), first.cache, max), 0x1500, 0x2000)
  {
    hide ReadWord, ObjectsOf, StepFresh, StepCached, CacheAfter, ApplyTdep, Stopped;
    var o, f := ObjectsOf([Object()]), Stopped();
    ProcessLooksUp(0x1500);
    FirstStep(w);
    var empty: Entries := map[];
    CacheAfterWf(o, f, empty);
    var s, next := StepFresh(o, w, f), CacheAfter(o, f, empty);
    assert RunFresh(o, w, s.frame, max - 1).entries[0] == 0x1fff;
    assert RunCached(o, w, s.frame, next, max - 1).entries[0] == 0x1fff;
    SecondRunDiffers(o, w, f, max, first);
  }

  /** The same process is one of ordinary calls: its backtrace of two entries is right from a cache
      of any history exactly when 0x1500 is not in it. */
  lemma RightUnlessCached(w: World, events: seq<Event>)
    requires WfWorld(w) && ReadWord(w.mem, 0x1000) == Some(0x2000) && ReadWord(w.mem, 0x1008).Some?
    requires forall k :: 0 <= k < |events| ==> WfEvent(events[k])
    ensures WfEntries(After(ObjectsOf([Object()]), map[], events))
    ensures var o := ObjectsOf([Object()]);
            var cache := After(o, map[], events);
            RunCached(o, w, Stopped(), cache, 2).entries == RunFresh(o, w, Stopped(), 2).entries
            <==> 0x1500 !in cache
  {
    hide ReadWord, ObjectsOf, RunCached, RunFresh, After, OrdinaryCalls, StepFresh, Stopped;
    TwoOrdinaryCalls(w);
    CurrentUnwindTransparent([Object()], w, Stopped(), events, 2);
  }

  lemma TwoOrdinaryCalls(w: World)
    requires WfWorld(w) && ReadWord(w.mem, 0x1000) == Some(0x2000) && ReadWord(w.mem, 0x1008).Some?
    ensures OrdinaryCalls(ObjectsOf([Object()]), w, Stopped(), 2)
    ensures StepFresh(ObjectsOf([Object()]), w, Stopped()).code.Continue? && Stopped().callFrame == 0
  {
    hide ReadWord, ObjectsOf, StepFresh, StepCached, CacheAfter;
    var o, f := ObjectsOf([Object()]), Stopped();
    ProcessLooksUp(0x1500);
    ProcessLooksUp(0x1fff);
    ColdStep(o, w, f);
    var next := StepFresh(o, w, f).frame;
    assert PcOf(next) == 0x1fff && next.regs[RSP] == 0x1008;
    assert ApplyTdep(next.regs, Project(PlainRow(), 0x1fff, PC_COLUMN), w.mem).ok;
    OrdinaryNext(o, w, next);
    OrdinaryFirst(o, w, f);
  }

  lemma OrdinaryNext(o: Objects, w: World, f: Frame)
    requires WfFrame(f) && WfWorld(w) && o.lookup(PcOf(f)) == At(Found(PlainRow(), PC_COLUMN, 1))
    requires ApplyTdep(f.regs, Project(PlainRow(), PcOf(f), PC_COLUMN), w.mem).ok
    ensures OrdinaryCalls(o, w, f, 1)
  {
    hide ApplyTdep, StepFresh;
    if PcOf(f) != 0 && StepFresh(o, w, f).code.Continue? {
      assert OrdinaryCalls(o, w, StepFresh(o, w, f).frame, 0);
    }
  }

  lemma OrdinaryFirst(o: Objects, w: World, f: Frame)
    requires WfFrame(f) && WfWorld(w) && o.lookup(PcOf(f)) == At(Found(PlainRow(), PC_COLUMN, 1))
    requires ApplyTdep(f.regs, Project(PlainRow(), PcOf(f), PC_COLUMN), w.mem).ok
    requires StepFresh(o, w, f).code.Continue? && OrdinaryCalls(o, w, StepFresh(o, w, f).frame, 1)
    ensures OrdinaryCalls(o, w, f, 2)
  {
    hide ApplyTdep, StepFresh;
  }

  // ----- for the abstract unwinder -----

  function SmallDescription(): Description {
    Description(0, SmallImage(), 0x1400, Middle(0x1400))
  }

  lemma ObjectDescribes(pc: Word)
    requires 0x1400 <= pc <= 0x2400
    ensures Describes(Object(), pc, SmallDescription())
    ensures DescribedRow(SmallDescription(), pc) == Some(Middle(0x1400).row)
    ensures DescribedCallFrame(SmallDescription()) == 1
  {
    hide AbsTable, PerformAll, Reach, HoldsFrames, Leads;
    var img, mid := SmallImage(), Middle(0x1400);
    Leading(pc);
    FramesHeld();
    CieRuns(0x1400);
    NopsRun(AlignmentOf(img), 4, mid);
    HeaderBytes();
    RowOfCons(Entry(mid.loc, mid.row), [], pc);
  }
}
