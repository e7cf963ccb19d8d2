/** A whole look-up, from the bytes of the two sections to the row of the abstract table. */
module EndToEnd {
  import opened Words
  import opened Leb128
  import opened EncodedPointer
  import opened CfiState
  import opened CfiInterpreter
  import opened CfiSemantics
  import opened CfiTable
  import opened FdeIndex
  import opened FrameHeaders
  import opened CieRoundTrip
  import opened IndexRoundTrip
  import opened FrameRecords
  import opened Steps
  import opened Unwinder
  import opened LookupCorrect

  /** An index, and the CIE and FDE that it leads to. */
  datatype Image = Image(
    index: Index,
    cie: nat, header: Header, cieProg: seq<Instr>,
    fde: nat, fdeHeader: FdeHeader, fdeProg: seq<Instr>)

  function PtrType(img: Image): Byte {
    PointerEncoding(Augs(img.header), 0)
  }

  function CieBody(img: Image): seq<Byte>
    requires AllEncodable(img.cieProg)
  {
    EncodeHeader(img.header) + EncodeAll(img.cieProg)
  }

  function FdeBody(base: Word, img: Image): seq<Byte>
    requires AllEncodable(img.fdeProg)
  {
    EncodeFde(base, img.fde, PtrType(img), img.header.augs.Some?, img.fdeHeader) + EncodeAll(img.fdeProg)
  }

  /** With a z and no data in the CIE the parser does not skip the FDE's augmentation. */
  predicate Unskipped(h: Header) {
    h.augs.Some? && AllData(h.augs.value) == []
  }

  /** The instructions as executed: an unskipped length of zero is one more nop. */
  function Executed(img: Image): seq<Instr> {
    if Unskipped(img.header) then [Nop] + img.fdeProg else img.fdeProg
  }

  /** The index of the module leads from `pc` to the FDE. */
  ghost predicate Leads(m: Module, ix: Index, pc: Word, fde: nat) {
    && HoldsIndex(m, ix) && Sorted(StartsOf(m, ix)) && NonZero(StartsOf(m, ix))
    && LastAtOrBefore(StartsOf(m, ix), pc).Some?
    && FdeAt(m, ix, LastAtOrBefore(StartsOf(m, ix), pc).value) == Some(fde)
  }

  /** Both records are in place and within what the decoders read back. */
  ghost predicate HoldsFrames(sec: Section, img: Image) {
    && InAddressSpace(sec) && WellFormed(img.header)
    && img.header.codeAlign != 0 && img.header.dataAlign != 0 && img.header.retColumn < COLUMNS
    && AllEncodable(img.cieProg) && AllEncodable(img.fdeProg) && AllEncodable(Executed(img))
    && |EncodeAll(img.cieProg)| <= MAX_CFI && |EncodeAll(Executed(img))| <= MAX_CFI
    && HoldsRecords(sec.buf, img.cie, CieBody(img), img.fde, FdeBody(sec.base, img))
    && PersonalitiesHeld(sec, img)
    && WellFormedFde(sec, img.fde, PtrType(img), img.fdeHeader)
    && (Unskipped(img.header) ==> img.fdeHeader.data == [])
  }

  ghost predicate PersonalitiesHeld(sec: Section, img: Image) {
    var start := img.cie + 8 + |EncodeHeader(img.header)|;
    start >= |AllData(Augs(img.header))|
    && PersonalitiesOk(sec, Augs(img.header), start - |AllData(Augs(img.header))|, start)
  }

  function CieOf(img: Image): CieInfo
    requires WellFormed(img.header) && AllEncodable(img.cieProg)
  {
    var h := img.header;
    CieInfo(h.codeAlign, Wrap(h.dataAlign), h.retColumn, PtrType(img), CallFrame(Augs(h), 1),
            |AllData(Augs(h))|, img.cie + 8 + |EncodeHeader(h)|, img.cie + 8 + |CieBody(img)|)
  }

  lemma HeaderLength(h: Header)
    ensures |EncodeHeader(h)| >= 5 && EncodeHeader(h)[0] == h.version
    ensures |AllData(Augs(h))| <= |EncodeHeader(h)|
  {
    hide UlebEncode, SlebEncode, Letters, AllData;
    UlebEncodeIsGroup(h.codeAlign);
    SlebEncodeIsGroup(h.dataAlign);
    UlebEncodeIsGroup(h.retColumn);
    if h.augs.None? {
      EmptyData();
    }
  }

  /** The CIE found behind the FDE parses back. */
  lemma CieParses(sec: Section, img: Image)
    requires HoldsFrames(sec, img)
    ensures CheckFde(sec.buf, img.fde) && CieForFde(sec.buf, img.fde) == Some(img.cie)
    ensures ParseCie(sec, img.cie) == Some(CieOf(img))
    ensures EncodedAt(sec.buf, img.cieProg, CieOf(img).start, CieOf(img).end)
  {
    hide EncodeHeader, EncodeAll, FdeBody, WellFormed, WellFormedFde, PersonalitiesOk, ParseCie, CieForFde, CheckFde;
    hide AllEncodable, RecordEnd, Record, AllData, PointerEncoding, CallFrame, Holds, Executed;
    var h, body := img.header, CieBody(img);
    HeaderLength(h);
    assert h.version in {1, 3} by { VersionOf(h); }
    RecordsPass(sec.buf, img.cie, body, img.fde, FdeBody(sec.base, img));
    RecordHeld(sec.buf, img.cie, 0, body);
    HoldsSplit(sec.buf, img.cie + 8, EncodeHeader(h), EncodeAll(img.cieProg));
    CieRoundTrips(sec, h, img.cie);
  }

  lemma VersionOf(h: Header)
    requires WellFormed(h)
    ensures h.version == 1 || h.version == 3
  {
  }

  lemma NopEncoded(prog: seq<Instr>)
    requires AllEncodable(prog) && AllEncodable([Nop] + prog)
    ensures EncodeAll([Nop] + prog) == UlebEncode(0) + EncodeAll(prog)
  {
    assert ([Nop] + prog)[1..] == prog;
    assert Encode(Nop) == [0];
  }

  /** The FDE parses back, with the instructions as executed behind it. */
  lemma FdeParses(sec: Section, img: Image)
    requires HoldsFrames(sec, img)
    ensures var f := ParseFde(sec, img.fde, PtrType(img), |AllData(Augs(img.header))|);
            && f.Some?
            && f.value.startLoc == Target(sec, PtrType(img), img.fdeHeader.start).value
            && f.value.locRange == img.fdeHeader.range
            && EncodedAt(sec.buf, Executed(img), f.value.start, f.value.end)
  {
    hide EncodeHeader, EncodeAll, EncodeFde, CieBody, WellFormedFde, ParseFde, UlebEncode, AllData;
    hide PersonalitiesOk, AllEncodable, RecordEnd, Record, PointerEncoding, Target;
    var h, f := img.header, img.fdeHeader;
    var z, enc := h.augs.Some?, PtrType(img);
    var head, tail := EncodeFde(sec.base, img.fde, enc, z, f), EncodeAll(img.fdeProg);
    if h.augs.None? {
      EmptyData();
    }
    RecordHeld(sec.buf, img.fde, img.fde + 4 - img.cie, head + tail);
    HoldsSplit(sec.buf, img.fde + 8, head, tail);
    FdeRoundTrips(sec, img.fde, enc, z, f, |AllData(Augs(h))|);
    if Unskipped(h) {
      NopEncoded(img.fdeProg);
      LengthField(sec, img);
    }
  }

  /** The length field that is not skipped lies just before the instructions. */
  lemma LengthField(sec: Section, img: Image)
    requires HoldsFrames(sec, img) && Unskipped(img.header)
    ensures var body := FdeBody(sec.base, img);
            var executed := UlebEncode(0) + EncodeAll(img.fdeProg);
            && FdeAugmentation(true, img.fdeHeader) == UlebEncode(0)
            && |body| >= |executed| && Holds(sec.buf, img.fde + 8 + |body| - |executed|, executed)
  {
    hide EncodeHeader, EncodeAll, StartBytes, RangeBytes, CieBody, WellFormedFde, UlebEncode, AllData;
    hide PersonalitiesOk, AllEncodable, RecordEnd, Record, PointerEncoding, WellFormed, Executed, Holds;
    var f, enc := img.fdeHeader, PtrType(img);
    var front := StartBytes(sec.base, img.fde, enc, f) + RangeBytes(enc, f);
    var executed := UlebEncode(0) + EncodeAll(img.fdeProg);
    assert FdeAugmentation(true, f) == UlebEncode(0);
    RecordHeld(sec.buf, img.fde, img.fde + 4 - img.cie, FdeBody(sec.base, img));
    Regroup(front, UlebEncode(0), EncodeAll(img.fdeProg));
    HoldsSplit(sec.buf, img.fde + 8, front, executed);
  }

  lemma Regroup(a: seq<Byte>, b: seq<Byte>, c: seq<Byte>)
    ensures (a + b) + c == a + (b + c)
  {
  }

  function AlignmentOf(img: Image): Alignment {
    Alignment(img.header.codeAlign, img.header.dataAlign)
  }

  /** A leading nop changes nothing in the table. */
  lemma ExecutedSame(al: Alignment, img: Image, m: Machine)
    requires WfStack(m)
    ensures PerformAll(al, Executed(img), m) == PerformAll(al, img.fdeProg, m)
    ensures AbsTable(al, Executed(img), m) == AbsTable(al, img.fdeProg, m)
    ensures Reach(al, Executed(img)) == Reach(al, img.fdeProg)
  {
    hide AllData;
    if Unskipped(img.header) {
      assert Executed(img)[1..] == img.fdeProg;
      assert Perform(al, Nop, m) == Next(m);
      assert Product(0, al.code) == 0;
    }
  }

  /** The machine between the two programs. */
  ghost predicate Between(img: Image, startLoc: Word, mid: Machine) {
    var first := PerformAll(AlignmentOf(img), img.cieProg, InitialMachine(startLoc));
    first.Next? && mid == Established(first.m)
  }

  /** The programs run without a rejected or disallowed instruction, from a location at or before
      the pc and never past the end of the FDE's range. */
  ghost predicate Runs(img: Image, startLoc: Word, pc: Word, mid: Machine) {
    && Between(img, startLoc, mid) && PerformAll(AlignmentOf(img), img.fdeProg, mid).Next?
    && mid.loc <= pc
    && mid.loc + Reach(AlignmentOf(img), img.fdeProg) <= startLoc + img.fdeHeader.range < TWO64
  }

  lemma ProgramsHold(sec: Section, img: Image, f: FdeInfo, startLoc: Word, pc: Word, mid: Machine)
    requires HoldsFrames(sec, img) && Runs(img, startLoc, pc, mid) && pc != 0
    requires f.locRange == img.fdeHeader.range && EncodedAt(sec.buf, Executed(img), f.start, f.end)
    ensures Programs(sec.buf, CieOf(img), f, startLoc, pc, AlignmentOf(img), img.cieProg, Executed(img), mid)
    ensures mid.loc + Reach(AlignmentOf(img), Executed(img)) <= startLoc + f.locRange < TWO64
  {
    hide EncodedAt, EncodeHeader, CieBody, AllData, PointerEncoding, PerformAll, AbsTable, Reach, Executed;
    hide InitialMachine, Established, HoldsRecords, PersonalitiesHeld, WellFormedFde, WfStack, CallFrame;
    CieParses(sec, img);
    ExecutedSame(AlignmentOf(img), img, mid);
  }

  lemma IndexLeads(m: Module, img: Image, pc: Word)
    requires Leads(m, img.index, pc, img.fde)
    ensures pc != 0 && FindFde(m, pc) == Selected(img.fde)
  {
    hide FindFde, HoldsIndex, StartAt, FdeAt;
    IndexFinds(m, img.index, pc);
  }

  lemma RunsKeeps(img: Image, startLoc: Word, pc: Word, mid: Machine)
    requires Runs(img, startLoc, pc, mid)
    ensures WfStack(mid) && startLoc + img.fdeHeader.range < TWO64
  {
  }

  /** From bytes to the row: when the sections of a module hold an index, a CIE and an FDE made by
      the encoders, and the index leads from `pc` to that FDE, the look-up at `pc` succeeds with
      the header's return column and call-frame flag and with the row that the machine's table
      has at the pc. */
  lemma LookUpEndToEnd(m: Module, img: Image, pc: Word, startLoc: Word, mid: Machine)
    requires Leads(m, img.index, pc, img.fde) && HoldsFrames(m.ehf, img)
    requires startLoc == AdjustStart(m, Target(m.ehf, PtrType(img), img.fdeHeader.start).value, PtrType(img)) != 0
    requires pc <= startLoc + img.fdeHeader.range && Runs(img, startLoc, pc, mid)
    ensures LookUpIn(m, pc).At?
    ensures var d := LookUpIn(m, pc).found;
            && d.ret == img.header.retColumn && d.callFrame == CallFrame(Augs(img.header), 1)
            && RowAt(AbsTable(AlignmentOf(img), img.fdeProg, mid), pc) == Some(AbsRow(m.ehf.buf, d.row))
  {
    hide RunPrograms, FindFde, CheckFde, CieForFde, ParseCie, ParseFde, AbsTable, RowAt, AbsRow, CallFrame;
    hide AdjustStart, HoldsIndex, StartsOf, FdeAt, EncodedAt, Programs, Reach, Target, Executed, EncodeHeader;
    hide PointerEncoding, AllData, PerformAll, Established, InitialMachine, EncodeAll, WellFormedFde;
    hide WellFormed, AllEncodable, HoldsRecords, PersonalitiesHeld, NonZero, Sorted, Runs, CieBody, FdeBody;
    assert pc != 0 && FindFde(m, pc) == Selected(img.fde) by { IndexLeads(m, img, pc); }
    RunsKeeps(img, startLoc, pc, mid);
    CieParses(m.ehf, img);
    FdeParses(m.ehf, img);
    var c, al := CieOf(img), AlignmentOf(img);
    var f := ParseFde(m.ehf, img.fde, c.ptrType, c.augLen).value;
    ProgramsHold(m.ehf, img, f, startLoc, pc, mid);
    ExecutedSame(al, img, mid);
    LookupIsTableRow(m, c, f, startLoc, pc, al, img.cieProg, Executed(img), mid);
    LookupLoc(m, c, f, startLoc, pc, al, img.cieProg, Executed(img), mid);
  }

  /** A pc is reported as past the end exactly when it lies beyond the range that the FDE encodes,
      whatever the programs are. */
  lemma LookUpPastEnd(m: Module, img: Image, pc: Word, startLoc: Word)
    requires Leads(m, img.index, pc, img.fde) && HoldsFrames(m.ehf, img)
    requires startLoc == AdjustStart(m, Target(m.ehf, PtrType(img), img.fdeHeader.start).value, PtrType(img)) != 0
    requires startLoc + img.fdeHeader.range < TWO64
    ensures LookUpIn(m, pc) == PastEnd <==> pc > startLoc + img.fdeHeader.range
  {
    hide RunPrograms, FindFde, CheckFde, CieForFde, ParseCie, ParseFde, CallFrame, AdjustStart, HoldsIndex;
    hide StartsOf, FdeAt, EncodedAt, Target, Executed, EncodeHeader, PointerEncoding, AllData, EncodeAll;
    hide WellFormedFde, WellFormed, AllEncodable, HoldsRecords, PersonalitiesHeld, NonZero, Sorted, CieBody, FdeBody;
    assert FindFde(m, pc) == Selected(img.fde) by { IndexLeads(m, img, pc); }
    CieParses(m.ehf, img);
    FdeParses(m.ehf, img);
  }
}
