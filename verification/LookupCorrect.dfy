/** The row that a look-up uses, end to end: it is the row that the abstract machine's table has
    at the pc, and every expression in it lies inside the programs. */
module LookupCorrect {
  import opened Words
  import opened Leb128
  import opened CfiState
  import opened CfiInterpreter
  import opened CfiSemantics
  import opened CfiTable
  import opened CfiInvariants
  import opened FdeIndex
  import opened FrameHeaders
  import opened Steps
  import opened Unwinder
  import opened Restore
  import opened UserMemory
  import Expression
  import opened ExpressionCompiler

  // ----- the abstract table -----

  /** The table a list of instructions describes: a row is closed when the location moves on. */
  ghost function AbsTable(al: Alignment, prog: seq<Instr>, m: Machine): seq<Entry<TableRow>>
    requires WfStack(m)
  {
    var here := Entry(m.loc, m.row);
    if prog == [] then [here] else
    PerformKeepsShape(al, prog[0], m);
    var r := Perform(al, prog[0], m);
    if !r.Next? then [here]
    else if r.m.loc != m.loc then [here] + AbsTable(al, prog[1..], r.m)
    else AbsTable(al, prog[1..], r.m)
  }

  function DeltaOf(i: Instr): nat {
    if i.AdvanceLoc? || i.AdvanceLoc1? || i.AdvanceLoc2? || i.AdvanceLoc4? then i.delta else 0
  }

  /** How far a whole program moves the location. */
  function Reach(al: Alignment, prog: seq<Instr>): nat {
    if prog == [] then 0 else
    assert Product(DeltaOf(prog[0]), al.code) >= 0 by { NonNegativeProduct(DeltaOf(prog[0]), al.code); }
    Product(DeltaOf(prog[0]), al.code) + Reach(al, prog[1..])
  }

  lemma NonNegativeProduct(x: nat, y: nat)
    ensures Product(x, y) >= 0
  {
  }

  // ----- concrete against abstract table -----

  function AbsEntries(buf: seq<Byte>, t: seq<Entry<Row>>): (r: seq<Entry<TableRow>>)
    ensures |r| == |t|
  {
    seq(|t|, k requires 0 <= k < |t| => Entry(t[k].loc, AbsRow(buf, t[k].row)))
  }

  lemma RowCommutes(buf: seq<Byte>, t: seq<Entry<Row>>, pc: Word)
    ensures RowAt(AbsEntries(buf, t), pc) ==
            match RowAt(t, pc)
            case None => None
            case Some(row) => Some(AbsRow(buf, row))
  {
    hide AbsRow;
    assert Locs(AbsEntries(buf, t)) == Locs(t);
  }

  lemma AbsEntriesCons(buf: seq<Byte>, e: Entry<Row>, t: seq<Entry<Row>>)
    ensures AbsEntries(buf, [e] + t) == [Entry(e.loc, AbsRow(buf, e.row))] + AbsEntries(buf, t)
  {
  }

  /** What one encoded instruction does, in the form the table proofs use. */
  lemma InstrStep(cx: Context, al: Alignment, prog: seq<Instr>, cur: nat, end: nat, st: State)
    requires AllEncodable(prog) && prog != [] && Wf(st) && Aligned(al, st)
    requires Holds(cx.sec.buf, cur, EncodeAll(prog)) && cur + |EncodeAll(prog)| == end
    requires Perform(al, prog[0], Abs(cx.sec.buf, st)).Next?
    ensures var s := Exec(cx, cur, end, st);
            && cur < end && s.ok && s.cur <= end && Wf(s.st) && Aligned(al, s.st)
            && Abs(cx.sec.buf, s.st) == Perform(al, prog[0], Abs(cx.sec.buf, st)).m
            && Holds(cx.sec.buf, s.cur, EncodeAll(prog[1..])) && s.cur + |EncodeAll(prog[1..])| == end
  {
    hide Exec, Perform, Operands, Opcode, Abs;
    HoldsSplit(cx.sec.buf, cur, Encode(prog[0]), EncodeAll(prog[1..]));
    RefinesInstr(cx, al, prog[0], cur, end, st);
  }

  lemma {:induction false} TableRefines(cx: Context, al: Alignment, prog: seq<Instr>, cur: nat, end: nat, st: State)
    requires AllEncodable(prog) && Wf(st) && Aligned(al, st) && WfStack(Abs(cx.sec.buf, st))
    requires Holds(cx.sec.buf, cur, EncodeAll(prog)) && cur + |EncodeAll(prog)| == end
    requires PerformAll(al, prog, Abs(cx.sec.buf, st)).Next?
    ensures AbsEntries(cx.sec.buf, Table(cx, cur, end, st)) == AbsTable(al, prog, Abs(cx.sec.buf, st))
    decreases |prog|
  {
    hide Exec, Perform, Encode, AbsRow, AbsItems;
    var buf := cx.sec.buf;
    var m := Abs(buf, st);
    if prog == [] {
      assert AbsEntries(buf, Table(cx, cur, end, st)) == [Entry(m.loc, m.row)];
    } else {
      PerformKeepsShape(al, prog[0], m);
      InstrStep(cx, al, prog, cur, end, st);
      var s := Exec(cx, cur, end, st);
      TableRefines(cx, al, prog[1..], s.cur, end, s.st);
      AbsEntriesCons(buf, Entry(st.loc, Current(st)), Table(cx, s.cur, end, s.st));
    }
  }

  lemma DeltaIsDeltaOf(cx: Context, al: Alignment, i: Instr, cur: nat, end: nat, st: State)
    requires Meets(cx, al, i, cur, end, st)
    ensures Delta(cx.sec.buf, cur) == DeltaOf(i) && !IsSetLoc(cx.sec.buf, cur)
  {
    hide UlebEncode, SlebEncode, LittleEndian, ToLittleEndian, Pow2, Holds;
    MeetsOperands(cx, al, i, cur, end, st);
    Pow2Bytes();
    match i {
      case AdvanceLoc1(delta) => HoldsHead(cx.sec.buf, cur + 1, [delta]);
      case AdvanceLoc2(delta) => LittleEndianRoundTrip(cx.sec.buf, cur + 1, delta, 2);
      case AdvanceLoc4(delta) => LittleEndianRoundTrip(cx.sec.buf, cur + 1, delta, 4);
      case _ =>
    }
  }

  /** A program whose reach stays in the address space moves forward. */
  lemma {:induction false} ReachFits(cx: Context, al: Alignment, prog: seq<Instr>, cur: nat, end: nat, st: State)
    requires AllEncodable(prog) && Wf(st) && Aligned(al, st) && WfStack(Abs(cx.sec.buf, st))
    requires Holds(cx.sec.buf, cur, EncodeAll(prog)) && cur + |EncodeAll(prog)| == end
    requires PerformAll(al, prog, Abs(cx.sec.buf, st)).Next?
    requires st.loc + Reach(al, prog) < TWO64
    ensures MovesForward(cx, cur, end, st)
    decreases |prog|
  {
    hide Exec, Perform, Operands, Opcode, Abs, Product, Delta, DeltaOf, IsAdvance;
    if prog != [] {
      PerformKeepsShape(al, prog[0], Abs(cx.sec.buf, st));
      HoldsSplit(cx.sec.buf, cur, Encode(prog[0]), EncodeAll(prog[1..]));
      DeltaIsDeltaOf(cx, al, prog[0], cur, end, st);
      InstrStep(cx, al, prog, cur, end, st);
      StepFrame(cx, cur, end, st);
      NonNegativeProduct(DeltaOf(prog[0]), al.code);
      var s := Exec(cx, cur, end, st);
      ReachFits(cx, al, prog[1..], s.cur, end, s.st);
    }
  }

  // ----- a whole look-up -----

  /** The machine before the CIE's instructions. */
  function InitialMachine(startLoc: Word): (m: Machine)
    ensures WfStack(m)
  {
    var preserved := seq(COLUMNS, _ => Preserved);
    var row := TableRow(RegisterPlus(BAD_CFA.reg, BAD_CFA.off), preserved[PC_COLUMN := Unrecoverable]);
    Machine(startLoc, row, [], preserved)
  }

  lemma AbsInitial(buf: seq<Byte>, c: CieInfo, startLoc: Word)
    ensures Abs(buf, InitialState(c, startLoc)) == InitialMachine(startLoc)
  {
    var a, b := Abs(buf, InitialState(c, startLoc)), InitialMachine(startLoc);
    assert a.row.rules == b.row.rules;
    assert a.initial == b.initial;
  }

  /** The machine after the CIE's instructions, its rules kept for restore instructions. */
  function Established(m: Machine): (r: Machine)
    requires WfStack(m)
    ensures WfStack(r)
  {
    m.(initial := m.row.rules)
  }

  lemma AbsEstablished(buf: seq<Byte>, st: State)
    requires Wf(st)
    ensures var next := st.(cieRegs := Current(st).regs);
            Wf(next) && Abs(buf, next) == Established(Abs(buf, st))
  {
    assert Abs(buf, st.(cieRegs := Current(st).regs)).stack == Abs(buf, st).stack;
  }

  /** A program and where its encoding lies. */
  ghost predicate EncodedAt(buf: seq<Byte>, prog: seq<Instr>, start: int, end: nat) {
    && AllEncodable(prog) && start >= 0
    && Holds(buf, start, EncodeAll(prog)) && start + |EncodeAll(prog)| == end && |EncodeAll(prog)| <= MAX_CFI
  }

  /** The CIE and FDE programs a look-up runs, the machine between them, and what they need: no
      rejected or disallowed instruction, a pc not before the first row, and a reach that stays
      in the address space. */
  ghost predicate Programs(buf: seq<Byte>, c: CieInfo, f: FdeInfo, startLoc: Word, pc: Word,
                           al: Alignment, cie: seq<Instr>, fde: seq<Instr>, mid: Machine)
  {
    && c.codeAlign == al.code != 0 && c.dataAlign == Wrap(al.data)
    && EncodedAt(buf, cie, c.start, c.end) && EncodedAt(buf, fde, f.start, f.end)
    && PerformAll(al, cie, InitialMachine(startLoc)).Next?
    && mid == Established(PerformAll(al, cie, InitialMachine(startLoc)).m)
    && PerformAll(al, fde, mid).Next?
    && pc != 0 && mid.loc <= pc && mid.loc + Reach(al, fde) < TWO64
  }

  lemma {:induction false} RunKeepsAligned(cx: Context, al: Alignment, prog: seq<Instr>, cur: nat, end: nat, st: State)
    requires AllEncodable(prog) && Wf(st) && Aligned(al, st) && WfStack(Abs(cx.sec.buf, st))
    requires Holds(cx.sec.buf, cur, EncodeAll(prog)) && cur + |EncodeAll(prog)| == end
    requires PerformAll(al, prog, Abs(cx.sec.buf, st)).Next?
    ensures var r := Run(cx, cur, end, 0, st); r.ok && Aligned(al, r.st)
    decreases |prog|
  {
    hide Exec, Perform, Encode, Abs;
    if prog != [] {
      PerformKeepsShape(al, prog[0], Abs(cx.sec.buf, st));
      InstrStep(cx, al, prog, cur, end, st);
      var s := Exec(cx, cur, end, st);
      RunKeepsAligned(cx, al, prog[1..], s.cur, end, s.st);
    }
  }

  /** The second program, stopped at the pc, leaves the table's row. */
  lemma StoppedRow(cx: Context, al: Alignment, prog: seq<Instr>, start: nat, end: nat, pc: Word, st: State)
    requires EncodedAt(cx.sec.buf, prog, start, end) && Wf(st) && Aligned(al, st) && al.code != 0
    requires WfStack(Abs(cx.sec.buf, st)) && PerformAll(al, prog, Abs(cx.sec.buf, st)).Next?
    requires pc != 0 && st.loc <= pc && st.loc + Reach(al, prog) < TWO64
    ensures var r := RunProgram(cx, start, end, pc, st);
            r.ok && RowAt(AbsTable(al, prog, Abs(cx.sec.buf, st)), pc) == Some(AbsRow(cx.sec.buf, Current(r.st)))
  {
    hide Run, Table, AbsTable, RowAt, PerformAll, EncodeAll, Abs, AbsRow, MovesForward;
    var buf := cx.sec.buf;
    ReachFits(cx, al, prog, start, end, st);
    RunRefines(cx, al, prog, start, end, st);
    StopIsLookup(cx, start, end, pc, st);
    TableRefines(cx, al, prog, start, end, st);
    RowCommutes(buf, Table(cx, start, end, st), pc);
  }

  /** End to end: for any CIE and FDE programs in the decoders' range, the row that the look-up
      ends with at `pc` is the row that the machine's table has there. */
  lemma LookupIsTableRow(m: Module, c: CieInfo, f: FdeInfo, startLoc: Word, pc: Word,
                         al: Alignment, cie: seq<Instr>, fde: seq<Instr>, mid: Machine)
    requires Programs(m.ehf.buf, c, f, startLoc, pc, al, cie, fde, mid)
    ensures var r := RunPrograms(m, c, f, startLoc, pc);
            r.ok && RowAt(AbsTable(al, fde, mid), pc) == Some(AbsRow(m.ehf.buf, Current(r.st)))
  {
    hide Run, AbsTable, RowAt, PerformAll, EncodeAll, Abs, AbsRow, InitialMachine, Established, Reach;
    var buf := m.ehf.buf;
    var cx := Context(m.ehf, c.ptrType);
    var st0 := InitialState(c, startLoc);
    AbsInitial(buf, c, startLoc);
    RunRefines(cx, al, cie, c.start, c.end, st0);
    RunKeepsAligned(cx, al, cie, c.start, c.end, st0);
    var st1 := Run(cx, c.start, c.end, 0, st0).st;
    AbsEstablished(buf, st1);
    var st2 := st1.(cieRegs := Current(st1).regs);
    assert Abs(buf, st2) == mid;
    assert st2.loc == mid.loc by { AbsLoc(buf, st2); }
    StoppedRow(cx, al, fde, f.start, f.end, pc, st2);
  }

  lemma AbsLoc(buf: seq<Byte>, st: State)
    requires Wf(st)
    ensures Abs(buf, st).loc == st.loc
  {
  }

  /** Stopping never leaves the location past what the whole program reaches. */
  lemma {:induction false} StoppedLoc(
      cx: Context, al: Alignment, prog: seq<Instr>, cur: nat, end: nat, pc: Word, st: State)
    requires AllEncodable(prog) && Wf(st) && Aligned(al, st) && WfStack(Abs(cx.sec.buf, st))
    requires Holds(cx.sec.buf, cur, EncodeAll(prog)) && cur + |EncodeAll(prog)| == end
    requires PerformAll(al, prog, Abs(cx.sec.buf, st)).Next?
    requires st.loc + Reach(al, prog) < TWO64
    ensures Run(cx, cur, end, pc, st).st.loc <= st.loc + Reach(al, prog)
    decreases |prog|
  {
    hide Exec, Perform, Operands, Opcode, Abs, Product, Delta, DeltaOf, IsAdvance;
    if prog != [] {
      PerformKeepsShape(al, prog[0], Abs(cx.sec.buf, st));
      HoldsSplit(cx.sec.buf, cur, Encode(prog[0]), EncodeAll(prog[1..]));
      DeltaIsDeltaOf(cx, al, prog[0], cur, end, st);
      InstrStep(cx, al, prog, cur, end, st);
      StepFrame(cx, cur, end, st);
      NonNegativeProduct(DeltaOf(prog[0]), al.code);
      var s := Exec(cx, cur, end, st);
      StoppedLoc(cx, al, prog[1..], s.cur, end, pc, s.st);
    }
  }

  lemma LookupLoc(m: Module, c: CieInfo, f: FdeInfo, startLoc: Word, pc: Word,
                  al: Alignment, cie: seq<Instr>, fde: seq<Instr>, mid: Machine)
    requires Programs(m.ehf.buf, c, f, startLoc, pc, al, cie, fde, mid)
    ensures RunPrograms(m, c, f, startLoc, pc).st.loc <= mid.loc + Reach(al, fde)
  {
    hide Run, PerformAll, EncodeAll, Abs, InitialMachine, Established, Reach;
    var buf := m.ehf.buf;
    var cx := Context(m.ehf, c.ptrType);
    var st0 := InitialState(c, startLoc);
    AbsInitial(buf, c, startLoc);
    RunRefines(cx, al, cie, c.start, c.end, st0);
    RunKeepsAligned(cx, al, cie, c.start, c.end, st0);
    var st1 := Run(cx, c.start, c.end, 0, st0).st;
    AbsEstablished(buf, st1);
    var st2 := st1.(cieRegs := Current(st1).regs);
    AbsLoc(buf, st2);
    StoppedLoc(cx, al, fde, f.start, f.end, pc, st2);
  }

  // ----- nothing selected -----

  /** On a header whose start locations are sorted and valid, the look-up goes on to read a null
      FDE exactly for the pcs before the first entry. */
  lemma LookUpFaults(m: Module, pc: Word, t: HdrTable)
    requires OpenTable(m) == Some(t) && Sorted(Starts(m, t)) && NonZero(Starts(m, t))
    ensures LookUpIn(m, pc) == NullFde <==> pc < Starts(m, t)[0]
  {
    hide FindFde, OpenTable, Starts, FdeOf, LookUpRow, CheckFde, CieForFde, ParseCie, ParseFde;
    FindFdeIsLast(m, pc, t);
    if FindFde(m, pc).Selected? {
      RowIsNotNull(m, pc);
    }
  }

  lemma RowIsNotNull(m: Module, pc: Word)
    requires !FindFde(m, pc).Unselected?
    ensures LookUpIn(m, pc) != NullFde
  {
    hide FindFde, RunPrograms, AdjustStart, CheckFde, CieForFde, ParseCie, ParseFde;
  }

  // ----- expressions of a looked-up row -----

  /** A CFA that the machine gives by a compiled expression is computed as what the expression comes
      to on eight stack slots. */
  lemma CfaExpressionComputes(sr: Surroundings, regs: seq<Word>, mem: Memory, row: CfiState.Row, t: Tree)
    requires |regs| == COLUMNS && WfSurroundings(sr) && ExpressionCompiler.Encodable(t)
    requires sr.base + |sr.buf| < TWO64 && AbsRow(sr.buf, row).cfa == ByExpr(Compile(t))
    ensures var r := ComputeCfa(sr, regs, mem, row.cfa);
            && r == ValueWithin(t, regs, Expression.SLOTS)
            && (Slots(t) <= Expression.SLOTS ==> r == ExpressionCompiler.Value(t, regs))
  {
    hide Uleb, ExpressionCompiler.Value, ValueWithin, Compile, Slots, ExpressionCompiler.Encodable, Expression.ExecOp;
    var len := GetUnbounded(sr.buf, row.cfa.ptr);
    CompileNotEmpty(t);
    assert Holds(sr.buf, len.cur, Compile(t));
    var s' := CompiledYields(EnvOf(sr, regs, mem), t, len.cur, len.cur + len.value, Expression.Stack(sr.junk, 0));
    SlotsSuffice(t, regs, Expression.SLOTS);
  }

  lemma CompileNotEmpty(t: Tree)
    requires ExpressionCompiler.Encodable(t)
    ensures Compile(t) != []
  {
  }

  lemma InitialGood(buf: seq<Byte>, c: CieInfo, startLoc: Word, a: Region, b: Region)
    ensures StateGood(buf, InitialState(c, startLoc), a, b)
  {
    hide Inside, Terminated;
  }

  lemma EstablishedGood(buf: seq<Byte>, st: State, a: Region, b: Region)
    requires Wf(st) && StateGood(buf, st, a, a)
    ensures StateGood(buf, st.(cieRegs := Current(st).regs), a, b)
  {
    hide Inside, Terminated;
    assert RowGood(buf, Current(st), a, a);
    forall k | 0 <= k <= st.depth
      ensures RowGood(buf, st.rows[k], a, b)
    {
      assert RowGood(buf, st.rows[k], a, a);
    }
  }

  /** On any bytes at all, every CFA expression and every terminated register expression in the row
      a look-up ends with lies inside the CIE's or the FDE's program and re-reads with the length
      that was checked. */
  lemma LookupRowStored(m: Module, c: CieInfo, f: FdeInfo, startLoc: Word, pc: Word)
    requires var r := RunPrograms(m, c, f, startLoc, pc); r.ok && !r.strayed
    ensures var row := Current(RunPrograms(m, c, f, startLoc, pc).st);
            f.start >= 0 && RowGood(m.ehf.buf, row, Region(c.start, c.end), Region(f.start, f.end))
  {
    hide Run, RowGood, ItemsGood, InitialState;
    var buf := m.ehf.buf;
    var cx := Context(m.ehf, c.ptrType);
    var a, b := Region(c.start, c.end), Region(f.start, f.end);
    var st0 := InitialState(c, startLoc);
    InitialGood(buf, c, startLoc, a, a);
    RunKeepsGood(cx, c.start, c.start, c.end, 0, st0, a);
    var st1 := Run(cx, c.start, c.end, 0, st0).st;
    EstablishedGood(buf, st1, a, b);
    RunKeepsGood(cx, f.start, f.start, f.end, pc, st1.(cieRegs := Current(st1).regs), a);
  }
}
