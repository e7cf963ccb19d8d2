/** An abstract machine for call frame instructions (section 6.4.2 of DWARF 4), their byte
    encoding, and the proof that the byte interpreter refines the machine. */
module CfiSemantics {
  import opened Words
  import opened Leb128
  import opened CfiState
  import opened CfiInterpreter
  import opened EncodedPointer

  // ----- instructions and their encoding -----

  datatype Instr =
    | Nop
    | AdvanceLoc(delta: nat)
    | AdvanceLoc1(delta: nat)
    | AdvanceLoc2(delta: nat)
    | AdvanceLoc4(delta: nat)
    | Offset(reg: Word, n: Word)
    | OffsetExtended(reg: Word, n: Word)
    | OffsetExtendedSf(reg: Word, s: int)
    | ValOffset(reg: Word, n: Word)
    | ValOffsetSf(reg: Word, s: int)
    | Restore(reg: Word)
    | RestoreExtended(reg: Word)
    | Undefined(reg: Word)
    | SameValue(reg: Word)
    | InRegister(reg: Word, from: Word)
    | RememberState
    | RestoreState
    | DefCfa(reg: Word, off: Word)
    | DefCfaSf(reg: Word, s: int)
    | DefCfaRegister(reg: Word)
    | DefCfaOffset(off: Word)
    | DefCfaOffsetSf(s: int)
    | DefCfaExpression(block: seq<Byte>)
    | Expression(reg: Word, block: seq<Byte>)
    | ValExpression(reg: Word, block: seq<Byte>)
    | ArgsSize(n: Word)

  /** Operands that the opcode has room for and the decoders read back exactly. */
  predicate Encodable(i: Instr) {
    match i
    case AdvanceLoc(delta) => delta < 64
    case AdvanceLoc1(delta) => delta < 0x100
    case AdvanceLoc2(delta) => delta < 0x1_0000
    case AdvanceLoc4(delta) => delta < TWO32
    case Offset(reg, _) => reg < 64
    case Restore(reg) => reg < 64
    case OffsetExtendedSf(_, s) => SlebExact(s)
    case ValOffsetSf(_, s) => SlebExact(s)
    case DefCfaSf(_, s) => SlebExact(s)
    case DefCfaOffsetSf(s) => SlebExact(s)
    case DefCfaExpression(block) => 0 < |block| < TWO64
    case Expression(reg, block) => reg < COLUMNS && |block| < TWO64
    case ValExpression(reg, block) => reg < COLUMNS && |block| < TWO64
    case _ => true
  }

  function Block(block: seq<Byte>): seq<Byte> {
    UlebEncode(|block|) + block
  }

  /** The call frame instruction table of section 7.23 of DWARF 4 and the GNU extension, in numbers. */
  function Opcode(i: Instr): Byte
    requires Encodable(i)
  {
    match i
    case Nop => 0x00
    case AdvanceLoc(delta) => 0x40 + delta
    case AdvanceLoc1(_) => 0x02
    case AdvanceLoc2(_) => 0x03
    case AdvanceLoc4(_) => 0x04
    case Offset(reg, _) => 0x80 + reg
    case OffsetExtended(_, _) => 0x05
    case OffsetExtendedSf(_, _) => 0x11
    case ValOffset(_, _) => 0x14
    case ValOffsetSf(_, _) => 0x15
    case Restore(reg) => 0xc0 + reg
    case RestoreExtended(_) => 0x06
    case Undefined(_) => 0x07
    case SameValue(_) => 0x08
    case InRegister(_, _) => 0x09
    case RememberState => 0x0a
    case RestoreState => 0x0b
    case DefCfa(_, _) => 0x0c
    case DefCfaSf(_, _) => 0x12
    case DefCfaRegister(_) => 0x0d
    case DefCfaOffset(_) => 0x0e
    case DefCfaOffsetSf(_) => 0x13
    case DefCfaExpression(_) => 0x0f
    case Expression(_, _) => 0x10
    case ValExpression(_, _) => 0x16
    case ArgsSize(_) => 0x2e
  }

  function Operands(i: Instr): seq<Byte>
    requires Encodable(i)
  {
    match i
    case AdvanceLoc1(delta) => [delta]
    case AdvanceLoc2(delta) => ToLittleEndian(delta, 2)
    case AdvanceLoc4(delta) => ToLittleEndian(delta, 4)
    case Offset(_, n) => UlebEncode(n)
    case OffsetExtended(reg, n) => UlebEncode(reg) + UlebEncode(n)
    case OffsetExtendedSf(reg, s) => UlebEncode(reg) + SlebEncode(s)
    case ValOffset(reg, n) => UlebEncode(reg) + UlebEncode(n)
    case ValOffsetSf(reg, s) => UlebEncode(reg) + SlebEncode(s)
    case RestoreExtended(reg) => UlebEncode(reg)
    case Undefined(reg) => UlebEncode(reg)
    case SameValue(reg) => UlebEncode(reg)
    case InRegister(reg, from) => UlebEncode(reg) + UlebEncode(from)
    case DefCfa(reg, off) => UlebEncode(reg) + UlebEncode(off)
    case DefCfaSf(reg, s) => UlebEncode(reg) + SlebEncode(s)
    case DefCfaRegister(reg) => UlebEncode(reg)
    case DefCfaOffset(off) => UlebEncode(off)
    case DefCfaOffsetSf(s) => SlebEncode(s)
    case DefCfaExpression(block) => Block(block)
    case Expression(reg, block) => UlebEncode(reg) + Block(block)
    case ValExpression(reg, block) => UlebEncode(reg) + Block(block)
    case ArgsSize(n) => UlebEncode(n)
    case _ => []
  }

  function Encode(i: Instr): seq<Byte>
    requires Encodable(i)
  {
    [Opcode(i)] + Operands(i)
  }

  ghost predicate AllEncodable(prog: seq<Instr>) {
    forall k :: 0 <= k < |prog| ==> Encodable(prog[k])
  }

  function EncodeAll(prog: seq<Instr>): seq<Byte>
    requires AllEncodable(prog)
  {
    if prog == [] then [] else Encode(prog[0]) + EncodeAll(prog[1..])
  }

  // ----- the abstract machine -----

  datatype Rule =
    | Preserved
    | Unrecoverable
    | SavedAt(off: Word)
    | IsCfaPlus(off: Word)
    | HeldIn(reg: Word)
    | SavedAtExpr(block: seq<Byte>)
    | IsExpr(block: seq<Byte>)

  datatype CfaRule = RegisterPlus(reg: Word, off: Word) | ByExpr(block: seq<Byte>)

  datatype TableRow = TableRow(cfa: CfaRule, rules: seq<Rule>)

  /** The location, the row under construction, the rows put aside (innermost last) and the
      rules the CIE established. */
  datatype Machine = Machine(loc: Word, row: TableRow, stack: seq<TableRow>, initial: seq<Rule>)

  datatype Alignment = Alignment(code: Word, data: int)

  /** What an instruction does: a next state, a rejected program, or an instruction that the
      standard does not allow in the state. */
  datatype Effect = Next(m: Machine) | Rejected | NotAllowed

  const MAX_REMEMBERED: nat := 3

  predicate WfMachine(m: Machine) {
    |m.row.rules| == COLUMNS && |m.initial| == COLUMNS
  }

  function Move(al: Alignment, m: Machine, delta: nat): Effect {
    if delta == 0 then Rejected else Next(m.(loc := Wrap(m.loc + Product(delta, al.code))))
  }

  function Define(m: Machine, reg: Word, rule: Rule): (r: Machine)
    requires WfMachine(m)
    ensures WfMachine(r)
  {
    if reg < COLUMNS then m.(row := m.row.(rules := m.row.rules[reg := rule])) else m
  }

  function DefineCfa(m: Machine, cfa: CfaRule): (r: Machine)
    requires WfMachine(m)
    ensures WfMachine(r)
  {
    m.(row := m.row.(cfa := cfa))
  }

  function EditCfa(m: Machine, reg: Option<Word>, off: Option<Word>): (r: Effect)
    requires WfMachine(m)
    ensures r.Next? ==> WfMachine(r.m)
  {
    match m.row.cfa
    case ByExpr(_) => NotAllowed
    case RegisterPlus(oldReg, oldOff) =>
      Next(DefineCfa(m, RegisterPlus(if reg.Some? then reg.value else oldReg, if off.Some? then off.value else oldOff)))
  }

  function Perform(al: Alignment, i: Instr, m: Machine): (r: Effect)
    requires WfMachine(m)
  {
    match i
    case Nop => Next(m)
    case AdvanceLoc(delta) => Move(al, m, delta)
    case AdvanceLoc1(delta) => Move(al, m, delta)
    case AdvanceLoc2(delta) => Move(al, m, delta)
    case AdvanceLoc4(delta) => Move(al, m, delta)
    case Offset(reg, n) => Next(Define(m, reg, SavedAt(Wrap(Product(n, al.data)))))
    case OffsetExtended(reg, n) => Next(Define(m, reg, SavedAt(Wrap(Product(n, al.data)))))
    case OffsetExtendedSf(reg, s) => Next(Define(m, reg, SavedAt(Wrap(Product(s, al.data)))))
    case ValOffset(reg, n) => Next(Define(m, reg, IsCfaPlus(Wrap(Product(n, al.data)))))
    case ValOffsetSf(reg, s) => Next(Define(m, reg, IsCfaPlus(Wrap(Product(s, al.data)))))
    case Restore(reg) => Next(if reg < COLUMNS then Define(m, reg, m.initial[reg]) else m)
    case RestoreExtended(reg) => Next(if reg < COLUMNS then Define(m, reg, m.initial[reg]) else m)
    case Undefined(reg) => Next(Define(m, reg, Unrecoverable))
    case SameValue(reg) => Next(Define(m, reg, Preserved))
    case InRegister(reg, from) => Next(Define(m, reg, HeldIn(from)))
    case RememberState =>
      if |m.stack| == MAX_REMEMBERED then Rejected else Next(m.(stack := m.stack + [m.row]))
    case RestoreState =>
      if m.stack == [] then Rejected
      else Next(m.(row := m.stack[|m.stack| - 1], stack := m.stack[..|m.stack| - 1]))
    case DefCfa(reg, off) => Next(DefineCfa(m, RegisterPlus(reg, off)))
    case DefCfaSf(reg, s) => Next(DefineCfa(m, RegisterPlus(reg, Wrap(Product(s, al.data)))))
    case DefCfaRegister(reg) => EditCfa(m, Some(reg), None)
    case DefCfaOffset(off) => EditCfa(m, None, Some(off))
    case DefCfaOffsetSf(s) => EditCfa(m, None, Some(Wrap(Product(s, al.data))))
    case DefCfaExpression(block) => Next(DefineCfa(m, ByExpr(block)))
    case Expression(reg, block) => Next(Define(m, reg, SavedAtExpr(block)))
    case ValExpression(reg, block) => Next(Define(m, reg, IsExpr(block)))
    case ArgsSize(_) => Next(m)
  }

  ghost predicate WfStack(m: Machine) {
    WfMachine(m) && forall k :: 0 <= k < |m.stack| ==> |m.stack[k].rules| == COLUMNS
  }

  lemma PerformKeepsShape(al: Alignment, i: Instr, m: Machine)
    requires WfStack(m)
    ensures var r := Perform(al, i, m); r.Next? ==> WfStack(r.m)
  {
  }

  ghost function PerformAll(al: Alignment, prog: seq<Instr>, m: Machine): (r: Effect)
    requires WfStack(m)
    ensures r.Next? ==> WfStack(r.m)
  {
    if prog == [] then Next(m) else
      PerformKeepsShape(al, prog[0], m);
      var r := Perform(al, prog[0], m);
      if r.Next? then PerformAll(al, prog[1..], r.m) else r
  }

  // ----- the abstraction function -----

  /** The block whose length prefix lies at `ptr`, read with no bound. */
  function BlockAt(buf: seq<Byte>, ptr: nat): seq<Byte> {
    var len := GetUnbounded(buf, ptr);
    if len.cur + len.value <= |buf| then buf[len.cur..len.cur + len.value] else []
  }

  function AbsItem(buf: seq<Byte>, item: Item): Rule {
    match item
    case Same => Preserved
    case Nowhere => Unrecoverable
    case Memory(off) => SavedAt(off)
    case Register(reg) => HeldIn(reg)
    case Value(off) => IsCfaPlus(off)
    case Expr(ptr) => SavedAtExpr(BlockAt(buf, ptr))
    case ValExpr(ptr) => IsExpr(BlockAt(buf, ptr))
  }

  function AbsCfa(buf: seq<Byte>, cfa: Cfa): CfaRule {
    match cfa
    case RegOff(reg, off) => RegisterPlus(reg, off)
    case CfaExpr(ptr) => ByExpr(BlockAt(buf, ptr))
  }

  function AbsItems(buf: seq<Byte>, items: seq<Item>): (r: seq<Rule>)
    ensures |r| == |items|
  {
    seq(|items|, k requires 0 <= k < |items| => AbsItem(buf, items[k]))
  }

  function AbsRow(buf: seq<Byte>, row: Row): TableRow {
    TableRow(AbsCfa(buf, row.cfa), AbsItems(buf, row.regs))
  }

  function Abs(buf: seq<Byte>, st: State): (m: Machine)
    requires Wf(st)
    ensures WfMachine(m) && |m.stack| == st.depth
  {
    Machine(st.loc, AbsRow(buf, Current(st)),
            seq(st.depth, k requires 0 <= k < st.depth => AbsRow(buf, st.rows[k])),
            AbsItems(buf, st.cieRegs))
  }

  lemma AbsWfStack(buf: seq<Byte>, st: State)
    requires Wf(st)
    ensures WfStack(Abs(buf, st))
  {
  }

  lemma AbsSetRule(buf: seq<Byte>, st: State, reg: Word, item: Item)
    requires Wf(st)
    ensures Abs(buf, SetRule(st, reg, item)) == Define(Abs(buf, st), reg, AbsItem(buf, item))
  {
    if reg < COLUMNS {
      var row := Current(st);
      assert AbsItems(buf, row.regs[reg := item]) == AbsItems(buf, row.regs)[reg := AbsItem(buf, item)];
      assert Abs(buf, SetRule(st, reg, item)).stack == Abs(buf, st).stack;
    }
  }

  lemma AbsRestoreRule(buf: seq<Byte>, st: State, reg: Word)
    requires Wf(st)
    ensures Abs(buf, RestoreRule(st, reg)) ==
            if reg < COLUMNS then Define(Abs(buf, st), reg, Abs(buf, st).initial[reg]) else Abs(buf, st)
  {
    if reg < COLUMNS {
      AbsSetRule(buf, st, reg, st.cieRegs[reg]);
    }
  }

  lemma AbsSetCfa(buf: seq<Byte>, st: State, cfa: Cfa)
    requires Wf(st)
    ensures Abs(buf, SetCfa(st, cfa)) == DefineCfa(Abs(buf, st), AbsCfa(buf, cfa))
  {
    assert Abs(buf, SetCfa(st, cfa)).stack == Abs(buf, st).stack;
  }

  lemma AbsMove(buf: seq<Byte>, st: State, loc: Word)
    requires Wf(st)
    ensures Abs(buf, st.(loc := loc)) == Abs(buf, st).(loc := loc)
  {
    assert Abs(buf, st.(loc := loc)).stack == Abs(buf, st).stack;
  }

  lemma AbsRemember(buf: seq<Byte>, st: State, cur: nat)
    requires Wf(st)
    ensures Remember(st, cur).ok <==> |Abs(buf, st).stack| != MAX_REMEMBERED
    ensures Remember(st, cur).ok ==>
              var m := Abs(buf, st); Abs(buf, Remember(st, cur).st) == m.(stack := m.stack + [m.row])
  {
    if Remember(st, cur).ok {
      assert Abs(buf, Remember(st, cur).st).stack == Abs(buf, st).stack + [Abs(buf, st).row];
    }
  }

  lemma AbsRecall(buf: seq<Byte>, st: State, cur: nat)
    requires Wf(st)
    ensures Recall(st, cur).ok <==> Abs(buf, st).stack != []
    ensures Recall(st, cur).ok ==>
              var m := Abs(buf, st);
              Abs(buf, Recall(st, cur).st) == m.(row := m.stack[|m.stack| - 1], stack := m.stack[..|m.stack| - 1])
  {
    if Recall(st, cur).ok {
      var m := Abs(buf, st);
      assert Abs(buf, Recall(st, cur).st).stack == m.stack[..|m.stack| - 1];
    }
  }

  lemma FactoredIsProduct(n: int, st: State, al: Alignment)
    requires Aligned(al, st)
    ensures Factored(Wrap(n), st.dataAlign) == Wrap(Product(n, al.data))
  {
    WrapProduct(n, al.data);
  }

  // ----- refinement -----

  predicate Aligned(al: Alignment, st: State) {
    st.codeAlign == al.code && st.dataAlign == Wrap(al.data)
  }

  /** The interpreter's step at the encoding of `i` does what the machine does. */
  ghost predicate Refines(buf: seq<Byte>, al: Alignment, i: Instr, cur: nat, st: State, s: Step)
    requires Wf(st) && Encodable(i) && (s.ok ==> Wf(s.st))
  {
    match Perform(al, i, Abs(buf, st))
    case Next(m) => s.ok && s.cur == cur + |Encode(i)| && Abs(buf, s.st) == m && Aligned(al, s.st)
    case Rejected => !s.ok
    case NotAllowed => true
  }

  /** The situation an instruction is met in: its encoding at the cursor, inside the bound. */
  ghost predicate Meets(cx: Context, al: Alignment, i: Instr, cur: nat, end: nat, st: State) {
    && Encodable(i) && Wf(st) && Aligned(al, st)
    && Holds(cx.sec.buf, cur, Encode(i)) && cur + |Encode(i)| <= end <= |cx.sec.buf|
  }

  lemma MeetsOperands(cx: Context, al: Alignment, i: Instr, cur: nat, end: nat, st: State)
    requires Meets(cx, al, i, cur, end, st)
    ensures ByteAt(cx.sec.buf, cur) == Opcode(i) && Holds(cx.sec.buf, cur + 1, Operands(i))
  {
    HoldsHead(cx.sec.buf, cur, Encode(i));
    assert Encode(i)[1..] == Operands(i);
  }

  /** Two consecutive operands. */
  lemma TwoUlebs(buf: seq<Byte>, cur: nat, end: nat, a: Word, b: Word)
    requires Holds(buf, cur, UlebEncode(a) + UlebEncode(b)) && cur + |UlebEncode(a) + UlebEncode(b)| <= end
    ensures GetUleb(buf, cur, end) == Decoded(a, cur + |UlebEncode(a)|)
    ensures GetUleb(buf, cur + |UlebEncode(a)|, end) == Decoded(b, cur + |UlebEncode(a) + UlebEncode(b)|)
  {
    hide Uleb, UlebEncode;
    HoldsSplit(buf, cur, UlebEncode(a), UlebEncode(b));
    UlebRoundTrip(buf, cur, end, a);
    UlebRoundTrip(buf, cur + |UlebEncode(a)|, end, b);
  }

  lemma UlebThenSleb(buf: seq<Byte>, cur: nat, end: nat, a: Word, s: int)
    requires SlebExact(s)
    requires Holds(buf, cur, UlebEncode(a) + SlebEncode(s)) && cur + |UlebEncode(a) + SlebEncode(s)| <= end
    ensures GetUleb(buf, cur, end) == Decoded(a, cur + |UlebEncode(a)|)
    ensures GetSleb(buf, cur + |UlebEncode(a)|, end) == Decoded(Wrap(s), cur + |UlebEncode(a) + SlebEncode(s)|)
  {
    hide Uleb, Sleb, UlebEncode, SlebEncode;
    HoldsSplit(buf, cur, UlebEncode(a), SlebEncode(s));
    UlebRoundTrip(buf, cur, end, a);
    SlebRoundTrip(buf, cur + |UlebEncode(a)|, end, s);
  }

  /** A block is found again, whole, by the unbounded read of its length. */
  lemma BlockFound(buf: seq<Byte>, cur: nat, end: nat, block: seq<Byte>)
    requires |block| < TWO64 && Holds(buf, cur, Block(block)) && cur + |Block(block)| <= end <= |buf|
    ensures GetUleb(buf, cur, end) == Decoded(|block|, cur + |UlebEncode(|block|)|)
    ensures BlockAt(buf, cur) == block
  {
    hide Uleb, UlebEncode;
    HoldsSplit(buf, cur, UlebEncode(|block|), block);
    UlebRoundTrip(buf, cur, end, |block|);
    UlebRoundTrip(buf, cur, cur + |buf| + 1, |block|);
  }

  /** A column and a block, read and skipped whole. */
  lemma StoresBlock(buf: seq<Byte>, cur: nat, end: nat, st: State, reg: Word, block: seq<Byte>, value: bool)
    requires Wf(st) && reg < COLUMNS && |block| < TWO64
    requires Holds(buf, cur, UlebEncode(reg) + Block(block)) && cur + |UlebEncode(reg) + Block(block)| <= end <= |buf|
    ensures var at := cur + |UlebEncode(reg)|;
            && ExprRule(buf, cur, end, st, value) ==
               Step(at + |Block(block)|, SetRule(st, reg, if value then ValExpr(at) else Expr(at)), true)
            && BlockAt(buf, at) == block
  {
    hide Uleb, UlebEncode, BlockAt, SetRule;
    HoldsSplit(buf, cur, UlebEncode(reg), Block(block));
    UlebRoundTrip(buf, cur, end, reg);
    BlockFound(buf, cur + |UlebEncode(reg)|, end, block);
  }

  lemma RefinesAdvanceLoc(cx: Context, al: Alignment, i: Instr, cur: nat, end: nat, st: State)
    requires Meets(cx, al, i, cur, end, st) && i.AdvanceLoc?
    ensures Refines(cx.sec.buf, al, i, cur, st, Exec(cx, cur, end, st))
  {
    hide Uleb, Sleb, UlebEncode, SlebEncode, Product, LittleEndian, Pow2, ToLittleEndian;
    var buf := cx.sec.buf;
    MeetsOperands(cx, al, i, cur, end, st);
    AbsMove(buf, st, Wrap(st.loc + Product(i.delta, st.codeAlign)));
  }

  lemma RefinesAdvanceLoc1(cx: Context, al: Alignment, i: Instr, cur: nat, end: nat, st: State)
    requires Meets(cx, al, i, cur, end, st) && i.AdvanceLoc1?
    ensures Refines(cx.sec.buf, al, i, cur, st, Exec(cx, cur, end, st))
  {
    hide Uleb, Sleb, UlebEncode, SlebEncode, Product, LittleEndian, Pow2, ToLittleEndian;
    var buf := cx.sec.buf;
    MeetsOperands(cx, al, i, cur, end, st);
    AbsMove(buf, st, Wrap(st.loc + Product(i.delta, st.codeAlign)));
    HoldsHead(buf, cur + 1, [i.delta]);
  }

  lemma RefinesAdvanceLoc2(cx: Context, al: Alignment, i: Instr, cur: nat, end: nat, st: State)
    requires Meets(cx, al, i, cur, end, st) && i.AdvanceLoc2?
    ensures Refines(cx.sec.buf, al, i, cur, st, Exec(cx, cur, end, st))
  {
    hide Uleb, Sleb, UlebEncode, SlebEncode, Product, LittleEndian, Pow2, ToLittleEndian;
    var buf := cx.sec.buf;
    MeetsOperands(cx, al, i, cur, end, st);
    AbsMove(buf, st, Wrap(st.loc + Product(i.delta, st.codeAlign)));
    Pow2Bytes();
    LittleEndianRoundTrip(buf, cur + 1, i.delta, 2);
  }

  lemma RefinesAdvanceLoc4(cx: Context, al: Alignment, i: Instr, cur: nat, end: nat, st: State)
    requires Meets(cx, al, i, cur, end, st) && i.AdvanceLoc4?
    ensures Refines(cx.sec.buf, al, i, cur, st, Exec(cx, cur, end, st))
  {
    hide Uleb, Sleb, UlebEncode, SlebEncode, Product, LittleEndian, Pow2, ToLittleEndian;
    var buf := cx.sec.buf;
    MeetsOperands(cx, al, i, cur, end, st);
    AbsMove(buf, st, Wrap(st.loc + Product(i.delta, st.codeAlign)));
    Pow2Bytes();
    LittleEndianRoundTrip(buf, cur + 1, i.delta, 4);
  }

  lemma RefinesOffset(cx: Context, al: Alignment, i: Instr, cur: nat, end: nat, st: State)
    requires Meets(cx, al, i, cur, end, st) && i.Offset?
    ensures Refines(cx.sec.buf, al, i, cur, st, Exec(cx, cur, end, st))
  {
    hide Uleb, Sleb, UlebEncode, SlebEncode, Product, LittleEndian;
    var buf := cx.sec.buf;
    MeetsOperands(cx, al, i, cur, end, st);
    FactoredIsProduct(i.n, st, al);
    AbsSetRule(buf, st, i.reg, Memory(Wrap(Product(i.n, al.data))));
    UlebRoundTrip(buf, cur + 1, end, i.n);
  }

  lemma RefinesOffsetExtended(cx: Context, al: Alignment, i: Instr, cur: nat, end: nat, st: State)
    requires Meets(cx, al, i, cur, end, st) && i.OffsetExtended?
    ensures Refines(cx.sec.buf, al, i, cur, st, Exec(cx, cur, end, st))
  {
    hide Uleb, Sleb, UlebEncode, SlebEncode, Product, LittleEndian;
    var buf := cx.sec.buf;
    MeetsOperands(cx, al, i, cur, end, st);
    FactoredIsProduct(i.n, st, al);
    AbsSetRule(buf, st, i.reg, Memory(Wrap(Product(i.n, al.data))));
    TwoUlebs(buf, cur + 1, end, i.reg, i.n);
  }

  lemma RefinesValOffset(cx: Context, al: Alignment, i: Instr, cur: nat, end: nat, st: State)
    requires Meets(cx, al, i, cur, end, st) && i.ValOffset?
    ensures Refines(cx.sec.buf, al, i, cur, st, Exec(cx, cur, end, st))
  {
    hide Uleb, Sleb, UlebEncode, SlebEncode, Product, LittleEndian;
    var buf := cx.sec.buf;
    MeetsOperands(cx, al, i, cur, end, st);
    FactoredIsProduct(i.n, st, al);
    AbsSetRule(buf, st, i.reg, Value(Wrap(Product(i.n, al.data))));
    TwoUlebs(buf, cur + 1, end, i.reg, i.n);
  }

  lemma RefinesOffsetExtendedSf(cx: Context, al: Alignment, i: Instr, cur: nat, end: nat, st: State)
    requires Meets(cx, al, i, cur, end, st) && i.OffsetExtendedSf?
    ensures Refines(cx.sec.buf, al, i, cur, st, Exec(cx, cur, end, st))
  {
    hide Uleb, Sleb, UlebEncode, SlebEncode, Product, LittleEndian;
    var buf := cx.sec.buf;
    MeetsOperands(cx, al, i, cur, end, st);
    FactoredIsProduct(i.s, st, al);
    AbsSetRule(buf, st, i.reg, Memory(Wrap(Product(i.s, al.data))));
    UlebThenSleb(buf, cur + 1, end, i.reg, i.s);
  }

  lemma RefinesValOffsetSf(cx: Context, al: Alignment, i: Instr, cur: nat, end: nat, st: State)
    requires Meets(cx, al, i, cur, end, st) && i.ValOffsetSf?
    ensures Refines(cx.sec.buf, al, i, cur, st, Exec(cx, cur, end, st))
  {
    hide Uleb, Sleb, UlebEncode, SlebEncode, Product, LittleEndian;
    var buf := cx.sec.buf;
    MeetsOperands(cx, al, i, cur, end, st);
    FactoredIsProduct(i.s, st, al);
    AbsSetRule(buf, st, i.reg, Value(Wrap(Product(i.s, al.data))));
    UlebThenSleb(buf, cur + 1, end, i.reg, i.s);
  }

  lemma RefinesRestore(cx: Context, al: Alignment, i: Instr, cur: nat, end: nat, st: State)
    requires Meets(cx, al, i, cur, end, st) && i.Restore?
    ensures Refines(cx.sec.buf, al, i, cur, st, Exec(cx, cur, end, st))
  {
    hide Uleb, Sleb, UlebEncode, SlebEncode, Product, LittleEndian;
    var buf := cx.sec.buf;
    MeetsOperands(cx, al, i, cur, end, st);
    AbsRestoreRule(buf, st, i.reg);
  }

  lemma RefinesRestoreExtended(cx: Context, al: Alignment, i: Instr, cur: nat, end: nat, st: State)
    requires Meets(cx, al, i, cur, end, st) && i.RestoreExtended?
    ensures Refines(cx.sec.buf, al, i, cur, st, Exec(cx, cur, end, st))
  {
    hide Uleb, Sleb, UlebEncode, SlebEncode, Product, LittleEndian;
    var buf := cx.sec.buf;
    MeetsOperands(cx, al, i, cur, end, st);
    AbsRestoreRule(buf, st, i.reg);
    UlebRoundTrip(buf, cur + 1, end, i.reg);
  }

  lemma RefinesUndefined(cx: Context, al: Alignment, i: Instr, cur: nat, end: nat, st: State)
    requires Meets(cx, al, i, cur, end, st) && i.Undefined?
    ensures Refines(cx.sec.buf, al, i, cur, st, Exec(cx, cur, end, st))
  {
    hide Uleb, Sleb, UlebEncode, SlebEncode, Product, LittleEndian;
    var buf := cx.sec.buf;
    MeetsOperands(cx, al, i, cur, end, st);
    AbsSetRule(buf, st, i.reg, Nowhere);
    UlebRoundTrip(buf, cur + 1, end, i.reg);
  }

  lemma RefinesSameValue(cx: Context, al: Alignment, i: Instr, cur: nat, end: nat, st: State)
    requires Meets(cx, al, i, cur, end, st) && i.SameValue?
    ensures Refines(cx.sec.buf, al, i, cur, st, Exec(cx, cur, end, st))
  {
    hide Uleb, Sleb, UlebEncode, SlebEncode, Product, LittleEndian;
    var buf := cx.sec.buf;
    MeetsOperands(cx, al, i, cur, end, st);
    AbsSetRule(buf, st, i.reg, Same);
    UlebRoundTrip(buf, cur + 1, end, i.reg);
  }

  lemma RefinesInRegister(cx: Context, al: Alignment, i: Instr, cur: nat, end: nat, st: State)
    requires Meets(cx, al, i, cur, end, st) && i.InRegister?
    ensures Refines(cx.sec.buf, al, i, cur, st, Exec(cx, cur, end, st))
  {
    hide Uleb, Sleb, UlebEncode, SlebEncode, Product, LittleEndian;
    var buf := cx.sec.buf;
    MeetsOperands(cx, al, i, cur, end, st);
    AbsSetRule(buf, st, i.reg, Register(i.from));
    TwoUlebs(buf, cur + 1, end, i.reg, i.from);
  }

  lemma RefinesRememberState(cx: Context, al: Alignment, i: Instr, cur: nat, end: nat, st: State)
    requires Meets(cx, al, i, cur, end, st) && i.RememberState?
    ensures Refines(cx.sec.buf, al, i, cur, st, Exec(cx, cur, end, st))
  {
    hide Uleb, Sleb, UlebEncode, SlebEncode, Product, LittleEndian;
    var buf := cx.sec.buf;
    MeetsOperands(cx, al, i, cur, end, st);
    AbsRemember(buf, st, cur + 1);
  }

  lemma RefinesRestoreState(cx: Context, al: Alignment, i: Instr, cur: nat, end: nat, st: State)
    requires Meets(cx, al, i, cur, end, st) && i.RestoreState?
    ensures Refines(cx.sec.buf, al, i, cur, st, Exec(cx, cur, end, st))
  {
    hide Uleb, Sleb, UlebEncode, SlebEncode, Product, LittleEndian;
    var buf := cx.sec.buf;
    MeetsOperands(cx, al, i, cur, end, st);
    AbsRecall(buf, st, cur + 1);
  }

  lemma RefinesArgsSize(cx: Context, al: Alignment, i: Instr, cur: nat, end: nat, st: State)
    requires Meets(cx, al, i, cur, end, st) && i.ArgsSize?
    ensures Refines(cx.sec.buf, al, i, cur, st, Exec(cx, cur, end, st))
  {
    hide Uleb, Sleb, UlebEncode, SlebEncode, Product, LittleEndian;
    var buf := cx.sec.buf;
    MeetsOperands(cx, al, i, cur, end, st);
    UlebRoundTrip(buf, cur + 1, end, i.n);
  }

  lemma RefinesDefCfa(cx: Context, al: Alignment, i: Instr, cur: nat, end: nat, st: State)
    requires Meets(cx, al, i, cur, end, st) && i.DefCfa?
    ensures Refines(cx.sec.buf, al, i, cur, st, Exec(cx, cur, end, st))
  {
    hide Uleb, Sleb, UlebEncode, SlebEncode, Product, LittleEndian;
    var buf := cx.sec.buf;
    MeetsOperands(cx, al, i, cur, end, st);
    AbsSetCfa(buf, st, RegOff(i.reg, i.off));
    TwoUlebs(buf, cur + 1, end, i.reg, i.off);
  }

  lemma RefinesDefCfaSf(cx: Context, al: Alignment, i: Instr, cur: nat, end: nat, st: State)
    requires Meets(cx, al, i, cur, end, st) && i.DefCfaSf?
    ensures Refines(cx.sec.buf, al, i, cur, st, Exec(cx, cur, end, st))
  {
    hide Uleb, Sleb, UlebEncode, SlebEncode, Product, LittleEndian;
    var buf := cx.sec.buf;
    MeetsOperands(cx, al, i, cur, end, st);
    FactoredIsProduct(i.s, st, al);
    AbsSetCfa(buf, st, RegOff(i.reg, Wrap(Product(i.s, al.data))));
    UlebThenSleb(buf, cur + 1, end, i.reg, i.s);
  }

  lemma RefinesDefCfaRegister(cx: Context, al: Alignment, i: Instr, cur: nat, end: nat, st: State)
    requires Meets(cx, al, i, cur, end, st) && i.DefCfaRegister?
    ensures Refines(cx.sec.buf, al, i, cur, st, Exec(cx, cur, end, st))
  {
    hide Uleb, Sleb, UlebEncode, SlebEncode, Product, LittleEndian;
    var buf := cx.sec.buf;
    MeetsOperands(cx, al, i, cur, end, st);
    if Current(st).cfa.RegOff? {
      AbsSetCfa(buf, st, RegOff(i.reg, Current(st).cfa.off));
      UlebRoundTrip(buf, cur + 1, end, i.reg);
    }
  }

  lemma RefinesDefCfaOffset(cx: Context, al: Alignment, i: Instr, cur: nat, end: nat, st: State)
    requires Meets(cx, al, i, cur, end, st) && i.DefCfaOffset?
    ensures Refines(cx.sec.buf, al, i, cur, st, Exec(cx, cur, end, st))
  {
    hide Uleb, Sleb, UlebEncode, SlebEncode, Product, LittleEndian;
    var buf := cx.sec.buf;
    MeetsOperands(cx, al, i, cur, end, st);
    if Current(st).cfa.RegOff? {
      AbsSetCfa(buf, st, RegOff(Current(st).cfa.reg, i.off));
      UlebRoundTrip(buf, cur + 1, end, i.off);
    }
  }

  lemma RefinesDefCfaOffsetSf(cx: Context, al: Alignment, i: Instr, cur: nat, end: nat, st: State)
    requires Meets(cx, al, i, cur, end, st) && i.DefCfaOffsetSf?
    ensures Refines(cx.sec.buf, al, i, cur, st, Exec(cx, cur, end, st))
  {
    hide Uleb, Sleb, UlebEncode, SlebEncode, Product, LittleEndian;
    var buf := cx.sec.buf;
    MeetsOperands(cx, al, i, cur, end, st);
    if Current(st).cfa.RegOff? {
      FactoredIsProduct(i.s, st, al);
      AbsSetCfa(buf, st, RegOff(Current(st).cfa.reg, Wrap(Product(i.s, al.data))));
      SlebRoundTrip(buf, cur + 1, end, i.s);
    }
  }

  lemma RefinesDefCfaExpression(cx: Context, al: Alignment, i: Instr, cur: nat, end: nat, st: State)
    requires Meets(cx, al, i, cur, end, st) && i.DefCfaExpression?
    ensures Refines(cx.sec.buf, al, i, cur, st, Exec(cx, cur, end, st))
  {
    hide Uleb, Sleb, UlebEncode, SlebEncode, Product, LittleEndian;
    var buf := cx.sec.buf;
    MeetsOperands(cx, al, i, cur, end, st);
    BlockFound(buf, cur + 1, end, i.block);
    AbsSetCfa(buf, st, CfaExpr(cur + 1));
  }

  lemma RefinesExpression(cx: Context, al: Alignment, i: Instr, cur: nat, end: nat, st: State)
    requires Meets(cx, al, i, cur, end, st) && i.Expression?
    ensures Refines(cx.sec.buf, al, i, cur, st, Exec(cx, cur, end, st))
  {
    hide Uleb, Sleb, UlebEncode, SlebEncode, BlockAt, ExprRule, Block;
    var buf := cx.sec.buf;
    MeetsOperands(cx, al, i, cur, end, st);
    var at := cur + 1 + |UlebEncode(i.reg)|;
    StoresBlock(buf, cur + 1, end, st, i.reg, i.block, false);
    AbsSetRule(buf, st, i.reg, Expr(at));
  }

  lemma RefinesValExpression(cx: Context, al: Alignment, i: Instr, cur: nat, end: nat, st: State)
    requires Meets(cx, al, i, cur, end, st) && i.ValExpression?
    ensures Refines(cx.sec.buf, al, i, cur, st, Exec(cx, cur, end, st))
  {
    hide Uleb, Sleb, UlebEncode, SlebEncode, BlockAt, ExprRule, Block;
    var buf := cx.sec.buf;
    MeetsOperands(cx, al, i, cur, end, st);
    var at := cur + 1 + |UlebEncode(i.reg)|;
    StoresBlock(buf, cur + 1, end, st, i.reg, i.block, true);
    AbsSetRule(buf, st, i.reg, ValExpr(at));
  }

  /** Every instruction, met at its encoding, is executed as the machine performs it. */
  lemma RefinesInstr(cx: Context, al: Alignment, i: Instr, cur: nat, end: nat, st: State)
    requires Meets(cx, al, i, cur, end, st)
    ensures Refines(cx.sec.buf, al, i, cur, st, Exec(cx, cur, end, st))
  {
    match i {
      case Nop => MeetsOperands(cx, al, i, cur, end, st);
      case AdvanceLoc(_) => RefinesAdvanceLoc(cx, al, i, cur, end, st);
      case AdvanceLoc1(_) => RefinesAdvanceLoc1(cx, al, i, cur, end, st);
      case AdvanceLoc2(_) => RefinesAdvanceLoc2(cx, al, i, cur, end, st);
      case AdvanceLoc4(_) => RefinesAdvanceLoc4(cx, al, i, cur, end, st);
      case Offset(_, _) => RefinesOffset(cx, al, i, cur, end, st);
      case OffsetExtended(_, _) => RefinesOffsetExtended(cx, al, i, cur, end, st);
      case OffsetExtendedSf(_, _) => RefinesOffsetExtendedSf(cx, al, i, cur, end, st);
      case ValOffset(_, _) => RefinesValOffset(cx, al, i, cur, end, st);
      case ValOffsetSf(_, _) => RefinesValOffsetSf(cx, al, i, cur, end, st);
      case Restore(_) => RefinesRestore(cx, al, i, cur, end, st);
      case RestoreExtended(_) => RefinesRestoreExtended(cx, al, i, cur, end, st);
      case Undefined(_) => RefinesUndefined(cx, al, i, cur, end, st);
      case SameValue(_) => RefinesSameValue(cx, al, i, cur, end, st);
      case InRegister(_, _) => RefinesInRegister(cx, al, i, cur, end, st);
      case RememberState => RefinesRememberState(cx, al, i, cur, end, st);
      case RestoreState => RefinesRestoreState(cx, al, i, cur, end, st);
      case DefCfa(_, _) => RefinesDefCfa(cx, al, i, cur, end, st);
      case DefCfaSf(_, _) => RefinesDefCfaSf(cx, al, i, cur, end, st);
      case DefCfaRegister(_) => RefinesDefCfaRegister(cx, al, i, cur, end, st);
      case DefCfaOffset(_) => RefinesDefCfaOffset(cx, al, i, cur, end, st);
      case DefCfaOffsetSf(_) => RefinesDefCfaOffsetSf(cx, al, i, cur, end, st);
      case DefCfaExpression(_) => RefinesDefCfaExpression(cx, al, i, cur, end, st);
      case Expression(_, _) => RefinesExpression(cx, al, i, cur, end, st);
      case ValExpression(_, _) => RefinesValExpression(cx, al, i, cur, end, st);
      case ArgsSize(_) => RefinesArgsSize(cx, al, i, cur, end, st);
    }
  }

  /** The two known opcodes that the machine leaves out, and the unknown ones, by their numbers:
      `set_loc`, `GNU_negative_offset_extended`, and anything else, which is refused. */
  lemma OtherOpcodes(cx: Context, cur: nat, end: nat, st: State)
    requires Wf(st)
    ensures ByteAt(cx.sec.buf, cur) == 0x01 ==>
              var p := ReadPointer(cx.sec, cur + 1, end, cx.ptrType);
              Exec(cx, cur, end, st) == Step(p.pos, st.(loc := p.value), p.value != 0)
    ensures ByteAt(cx.sec.buf, cur) == 0x2f ==>
              var reg := GetUleb(cx.sec.buf, cur + 1, end);
              var n := GetUleb(cx.sec.buf, reg.cur, end);
              Exec(cx, cur, end, st) == Step(n.cur, SetRule(st, reg.value, Memory(Wrap(0 - n.value))), true)
    ensures 0x16 < ByteAt(cx.sec.buf, cur) < 0x2e || 0x2f < ByteAt(cx.sec.buf, cur) < 0x40 ==>
              !Exec(cx, cur, end, st).ok
  {
    hide Uleb, Sleb, ReadPtr, SetRule;
  }

  /** An edit of a CFA that is an expression is not refused: nothing changes and the cursor stays
      at the operand, which is executed next. So an instruction's encoding is consumed exactly
      when the machine performs the instruction. */
  lemma NotAllowedLeavesOperand(cx: Context, al: Alignment, i: Instr, cur: nat, end: nat, st: State)
    requires Meets(cx, al, i, cur, end, st) && !Perform(al, i, Abs(cx.sec.buf, st)).Rejected?
    ensures var s := Exec(cx, cur, end, st);
            && s.ok
            && (Perform(al, i, Abs(cx.sec.buf, st)).NotAllowed? ==> s.cur == cur + 1 && s.st == st)
            && (s.cur == cur + |Encode(i)| <==> Perform(al, i, Abs(cx.sec.buf, st)).Next?)
  {
    hide Exec, Operands, Opcode;
    RefinesInstr(cx, al, i, cur, end, st);
    if Perform(al, i, Abs(cx.sec.buf, st)).NotAllowed? {
      EditLeavesOperand(cx, al, i, cur, end, st);
    }
  }

  lemma EditLeavesOperand(cx: Context, al: Alignment, i: Instr, cur: nat, end: nat, st: State)
    requires Meets(cx, al, i, cur, end, st) && Current(st).cfa.CfaExpr?
    requires i.DefCfaRegister? || i.DefCfaOffset? || i.DefCfaOffsetSf?
    ensures Exec(cx, cur, end, st) == Step(cur + 1, st, true) && |Encode(i)| > 1
  {
    hide Uleb, Sleb, LittleEndian, Product;
    MeetsOperands(cx, al, i, cur, end, st);
  }

  /** Running the bytes of a program is performing its instructions: the same final row, saved
      rows, location and verdict, as long as every instruction met is allowed. */
  lemma {:induction false} RunRefines(cx: Context, al: Alignment, prog: seq<Instr>, cur: nat, end: nat, st: State)
    requires AllEncodable(prog) && Wf(st) && Aligned(al, st)
    requires Holds(cx.sec.buf, cur, EncodeAll(prog)) && cur + |EncodeAll(prog)| == end <= |cx.sec.buf|
    requires WfStack(Abs(cx.sec.buf, st))
    ensures var r := Run(cx, cur, end, 0, st);
            match PerformAll(al, prog, Abs(cx.sec.buf, st))
            case Next(m) => r.ok && Abs(cx.sec.buf, r.st) == m
            case Rejected => !r.ok && !r.strayed
            case NotAllowed => true
    decreases |prog|
  {
    hide Exec, Perform, Operands, Opcode;
    var buf := cx.sec.buf;
    if prog != [] {
      var m := Abs(buf, st);
      HoldsSplit(buf, cur, Encode(prog[0]), EncodeAll(prog[1..]));
      RefinesInstr(cx, al, prog[0], cur, end, st);
      PerformKeepsShape(al, prog[0], m);
      if Perform(al, prog[0], m).Next? {
        var s := Exec(cx, cur, end, st);
        RunRefines(cx, al, prog[1..], s.cur, end, s.st);
      }
    }
  }

  /** The whole program, under the interpreter's limit of 512 bytes. */
  lemma ProgramRefines(cx: Context, al: Alignment, prog: seq<Instr>, start: nat, end: nat, st: State)
    requires AllEncodable(prog) && Wf(st) && Aligned(al, st)
    requires Holds(cx.sec.buf, start, EncodeAll(prog)) && start + |EncodeAll(prog)| == end
    ensures WfStack(Abs(cx.sec.buf, st))
    ensures var r := RunProgram(cx, start, end, 0, st);
            if |EncodeAll(prog)| > 512 then !r.ok && !r.strayed else
            match PerformAll(al, prog, Abs(cx.sec.buf, st))
            case Next(m) => r.ok && Abs(cx.sec.buf, r.st) == m
            case Rejected => !r.ok && !r.strayed
            case NotAllowed => true
  {
    AbsWfStack(cx.sec.buf, st);
    if |EncodeAll(prog)| <= MAX_CFI {
      RunRefines(cx, al, prog, start, end, st);
    }
  }
}
