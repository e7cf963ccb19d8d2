/** The call frame instruction interpreter (section 6.4.2 of DWARF 4) over raw bytes. */
module CfiInterpreter {
  import opened Words
  import opened Leb128
  import opened EncodedPointer
  import opened CfiState

  // Opcodes; the last three leave their low six bits to an operand.
  const CFA_NOP: Byte := 0x00
  const CFA_SET_LOC: Byte := 0x01
  const CFA_ADVANCE_LOC1: Byte := 0x02
  const CFA_ADVANCE_LOC2: Byte := 0x03
  const CFA_ADVANCE_LOC4: Byte := 0x04
  const CFA_OFFSET_EXTENDED: Byte := 0x05
  const CFA_RESTORE_EXTENDED: Byte := 0x06
  const CFA_UNDEFINED: Byte := 0x07
  const CFA_SAME_VALUE: Byte := 0x08
  const CFA_REGISTER: Byte := 0x09
  const CFA_REMEMBER_STATE: Byte := 0x0a
  const CFA_RESTORE_STATE: Byte := 0x0b
  const CFA_DEF_CFA: Byte := 0x0c
  const CFA_DEF_CFA_REGISTER: Byte := 0x0d
  const CFA_DEF_CFA_OFFSET: Byte := 0x0e
  const CFA_DEF_CFA_EXPRESSION: Byte := 0x0f
  const CFA_EXPRESSION: Byte := 0x10
  const CFA_OFFSET_EXTENDED_SF: Byte := 0x11
  const CFA_DEF_CFA_SF: Byte := 0x12
  const CFA_DEF_CFA_OFFSET_SF: Byte := 0x13
  const CFA_VAL_OFFSET: Byte := 0x14
  const CFA_VAL_OFFSET_SF: Byte := 0x15
  const CFA_VAL_EXPRESSION: Byte := 0x16
  const CFA_GNU_ARGS_SIZE: Byte := 0x2e
  const CFA_GNU_NEGATIVE_OFFSET_EXTENDED: Byte := 0x2f
  const CFA_ADVANCE_LOC: Byte := 0x40
  const CFA_OFFSET: Byte := 0x80
  const CFA_RESTORE: Byte := 0xc0

  const MAX_CFI: nat := 512

  /** What a program runs against: its section and the CIE's pointer encoding. */
  datatype Context = Context(sec: Section, ptrType: Byte)

  /** The cursor and state after one instruction, and whether the run may go on. */
  datatype Step = Step(cur: nat, st: State, ok: bool)

  function Factored(x: Word, align: Word): Word {
    Wrap(Product(x, align))
  }

  function Negated(x: Word): Word {
    Wrap(0 - x)
  }

  function Advance(st: State, delta: nat, cur: nat): Step {
    Step(cur, st.(loc := Wrap(st.loc + Product(delta, st.codeAlign))), delta > 0)
  }

  function Remember(st: State, cur: nat): (r: Step)
    requires Wf(st)
    ensures r.ok ==> Wf(r.st)
  {
    var up := st.(depth := st.depth + 1);
    if up.depth >= MAX_DEPTH then Step(cur, up, false)
    else Step(cur, up.(rows := up.rows[up.depth := st.rows[st.depth]]), true)
  }

  function Recall(st: State, cur: nat): (r: Step)
    requires Wf(st)
    ensures r.ok ==> Wf(r.st)
  {
    if st.depth == 0 then Step(cur, st, false) else Step(cur, st.(depth := st.depth - 1), true)
  }

  /** Two unsigned operands: a column and a factored offset. */
  function OffsetRule(buf: seq<Byte>, cur: nat, end: nat, st: State, value: bool): (r: Step)
    requires Wf(st)
    ensures r.ok && Wf(r.st) && r.cur >= cur
  {
    var reg := GetUleb(buf, cur, end);
    var n := GetUleb(buf, reg.cur, end);
    var off := Factored(n.value, st.dataAlign);
    Step(n.cur, SetRule(st, reg.value, if value then Value(off) else Memory(off)), true)
  }

  function SignedOffsetRule(buf: seq<Byte>, cur: nat, end: nat, st: State, value: bool): (r: Step)
    requires Wf(st)
    ensures r.ok && Wf(r.st) && r.cur >= cur
  {
    var reg := GetUleb(buf, cur, end);
    var n := GetSleb(buf, reg.cur, end);
    var off := Factored(n.value, st.dataAlign);
    Step(n.cur, SetRule(st, reg.value, if value then Value(off) else Memory(off)), true)
  }

  function RegisterRule(buf: seq<Byte>, cur: nat, end: nat, st: State): (r: Step)
    requires Wf(st)
    ensures r.ok && Wf(r.st) && r.cur >= cur
  {
    var reg := GetUleb(buf, cur, end);
    var from := GetUleb(buf, reg.cur, end);
    Step(from.cur, SetRule(st, reg.value, Register(from.value)), true)
  }

  /** A column and a block. The block is stored and skipped only when the column exists and
      the block fits; a cursor past the end makes the C difference wrap and the test pass. The
      cursor is kept as an offset that does not wrap; `Strays` compares addresses as the code does. */
  function ExprRule(buf: seq<Byte>, cur: nat, end: nat, st: State, value: bool): (r: Step)
    requires Wf(st)
    ensures r.ok && Wf(r.st) && r.cur >= cur
  {
    var reg := GetUleb(buf, cur, end);
    var len := GetUleb(buf, reg.cur, end);
    if (len.cur > end || end - len.cur >= len.value) && reg.value < COLUMNS then
      Step(len.cur + len.value, SetRule(st, reg.value, if value then ValExpr(reg.cur) else Expr(reg.cur)), true)
    else
      Step(len.cur, st, true)
  }

  function DefCfa(buf: seq<Byte>, cur: nat, end: nat, st: State, signed: bool): (r: Step)
    requires Wf(st)
    ensures r.ok && Wf(r.st) && r.cur >= cur
  {
    var reg := GetUleb(buf, cur, end);
    if signed then
      var n := GetSleb(buf, reg.cur, end);
      Step(n.cur, SetCfa(st, RegOff(reg.value, Factored(n.value, st.dataAlign))), true)
    else
      var n := GetUleb(buf, reg.cur, end);
      Step(n.cur, SetCfa(st, RegOff(reg.value, n.value)), true)
  }

  /** While the CFA is an expression the edit is dropped and its operand not consumed. */
  function DefCfaOffset(buf: seq<Byte>, cur: nat, end: nat, st: State, signed: bool): (r: Step)
    requires Wf(st)
    ensures r.ok && Wf(r.st) && r.cur >= cur
  {
    match Current(st).cfa
    case CfaExpr(_) => Step(cur, st, true)
    case RegOff(reg, _) =>
      if signed then
        var n := GetSleb(buf, cur, end);
        Step(n.cur, SetCfa(st, RegOff(reg, Factored(n.value, st.dataAlign))), true)
      else
        var n := GetUleb(buf, cur, end);
        Step(n.cur, SetCfa(st, RegOff(reg, n.value)), true)
  }

  function DefCfaRegister(buf: seq<Byte>, cur: nat, end: nat, st: State): (r: Step)
    requires Wf(st)
    ensures r.ok && Wf(r.st) && r.cur >= cur
  {
    match Current(st).cfa
    case CfaExpr(_) => Step(cur, st, true)
    case RegOff(_, off) =>
      var reg := GetUleb(buf, cur, end);
      Step(reg.cur, SetCfa(st, RegOff(reg.value, off)), true)
  }

  function DefCfaExpression(buf: seq<Byte>, cur: nat, end: nat, st: State): (r: Step)
    requires Wf(st)
    ensures r.ok && Wf(r.st) && r.cur >= cur
  {
    var len := GetUleb(buf, cur, end);
    if len.cur < end && end - len.cur >= len.value
    then Step(len.cur + len.value, SetCfa(st, CfaExpr(cur)), true)
    else Step(len.cur, st, true)
  }

  function NegativeOffsetRule(buf: seq<Byte>, cur: nat, end: nat, st: State): (r: Step)
    requires Wf(st)
    ensures r.ok && Wf(r.st) && r.cur >= cur
  {
    var reg := GetUleb(buf, cur, end);
    var n := GetUleb(buf, reg.cur, end);
    Step(n.cur, SetRule(st, reg.value, Memory(Negated(n.value))), true)
  }

  function SetLoc(cx: Context, cur: nat, end: nat, st: State): (r: Step)
    requires Wf(st)
    ensures Wf(r.st) && r.cur >= cur
  {
    var p := ReadPointer(cx.sec, cur, end, cx.ptrType);
    Step(p.pos, st.(loc := p.value), p.value != 0)
  }

  /** Rules that come from the operands alone, without an expression. */
  predicate IsPlainRuleOp(op: nat) {
    op in {CFA_OFFSET_EXTENDED, CFA_VAL_OFFSET, CFA_OFFSET_EXTENDED_SF, CFA_VAL_OFFSET_SF, CFA_UNDEFINED,
           CFA_SAME_VALUE, CFA_REGISTER, CFA_GNU_NEGATIVE_OFFSET_EXTENDED}
  }

  predicate IsRuleOp(op: nat) {
    || IsPlainRuleOp(op)
    || op in {CFA_RESTORE_EXTENDED, CFA_EXPRESSION, CFA_VAL_EXPRESSION}
  }

  predicate IsCfaOp(op: nat) {
    op in {CFA_DEF_CFA, CFA_DEF_CFA_SF, CFA_DEF_CFA_REGISTER, CFA_DEF_CFA_OFFSET, CFA_DEF_CFA_OFFSET_SF,
           CFA_DEF_CFA_EXPRESSION}
  }

  /** Instructions whose opcode is a whole byte; `cur` is just past it. */
  function ExecExtended(cx: Context, op: nat, cur: nat, end: nat, st: State): (r: Step)
    requires Wf(st)
    ensures r.cur >= cur
    ensures r.ok ==> Wf(r.st)
  {
    var buf := cx.sec.buf;
    match op
    case CFA_NOP => Step(cur, st, true)
    case CFA_SET_LOC => SetLoc(cx, cur, end, st)
    case CFA_ADVANCE_LOC1 => if cur < end then Advance(st, ByteAt(buf, cur), cur + 1) else Step(cur, st, false)
    case CFA_ADVANCE_LOC2 => if cur <= end + 2 then Advance(st, U16At(buf, cur), cur + 2) else Step(cur, st, false)
    case CFA_ADVANCE_LOC4 => if cur <= end + 4 then Advance(st, U32At(buf, cur), cur + 4) else Step(cur, st, false)
    case CFA_OFFSET_EXTENDED => OffsetRule(buf, cur, end, st, false)
    case CFA_VAL_OFFSET => OffsetRule(buf, cur, end, st, true)
    case CFA_OFFSET_EXTENDED_SF => SignedOffsetRule(buf, cur, end, st, false)
    case CFA_VAL_OFFSET_SF => SignedOffsetRule(buf, cur, end, st, true)
    case CFA_RESTORE_EXTENDED => var reg := GetUleb(buf, cur, end); Step(reg.cur, RestoreRule(st, reg.value), true)
    case CFA_UNDEFINED => var reg := GetUleb(buf, cur, end); Step(reg.cur, SetRule(st, reg.value, Nowhere), true)
    case CFA_SAME_VALUE => var reg := GetUleb(buf, cur, end); Step(reg.cur, SetRule(st, reg.value, Same), true)
    case CFA_REGISTER => RegisterRule(buf, cur, end, st)
    case CFA_REMEMBER_STATE => Remember(st, cur)
    case CFA_RESTORE_STATE => Recall(st, cur)
    case CFA_DEF_CFA => DefCfa(buf, cur, end, st, false)
    case CFA_DEF_CFA_SF => DefCfa(buf, cur, end, st, true)
    case CFA_DEF_CFA_REGISTER => DefCfaRegister(buf, cur, end, st)
    case CFA_DEF_CFA_OFFSET => DefCfaOffset(buf, cur, end, st, false)
    case CFA_DEF_CFA_OFFSET_SF => DefCfaOffset(buf, cur, end, st, true)
    case CFA_DEF_CFA_EXPRESSION => DefCfaExpression(buf, cur, end, st)
    case CFA_EXPRESSION => ExprRule(buf, cur, end, st, false)
    case CFA_VAL_EXPRESSION => ExprRule(buf, cur, end, st, true)
    case CFA_GNU_ARGS_SIZE => Step(GetUleb(buf, cur, end).cur, st, true)
    case CFA_GNU_NEGATIVE_OFFSET_EXTENDED => NegativeOffsetRule(buf, cur, end, st)
    case _ => Step(cur, st, false)
  }

  /** One instruction of any kind. */
  function Exec(cx: Context, cur: nat, end: nat, st: State): (r: Step)
    requires Wf(st)
    ensures r.cur > cur
    ensures r.ok ==> Wf(r.st)
  {
    var b := ByteAt(cx.sec.buf, cur);
    var low := b % 64;
    match b / 64
    case 0 => ExecExtended(cx, low, cur + 1, end, st)
    case 1 => Advance(st, low, cur + 1)
    case 2 =>
      var n := GetUleb(cx.sec.buf, cur + 1, end);
      Step(n.cur, SetRule(st, low, Memory(Factored(n.value, st.dataAlign))), true)
    case _ => Step(cur + 1, RestoreRule(st, low), true)
  }

  /** A cursor past the end whose address does not compare as past it: it has come round. */
  predicate Strays(cx: Context, cur: nat, end: nat) {
    cur > end && Wrap(cx.sec.base + cur) <= cx.sec.base + end
  }

  /** Whether a run was accepted, whether its cursor left the program unnoticed, and the state it
      left. A run that would read on out there is not followed. */
  datatype Outcome = Outcome(ok: bool, strayed: bool, st: State)

  /** The interpreter loop; `target` 0 means run to the end. */
  function Run(cx: Context, cur: nat, end: nat, target: Word, st: State): (r: Outcome)
    requires Wf(st)
    ensures r.ok || r.strayed ==> Wf(r.st)
    ensures target == 0 ==> !(r.ok && r.strayed)
    decreases end - cur
  {
    if cur >= end then Outcome(cur == end, false, st)
    else
      var s := Exec(cx, cur, end, st);
      if !s.ok || (s.cur > end && !Strays(cx, s.cur, end)) then Outcome(false, false, s.st)
      else if target != 0 && target < s.st.loc then Outcome(true, s.cur > end, s.st)
      else if s.cur > end then Outcome(false, true, s.st)
      else Run(cx, s.cur, end, target, s.st)
  }

  /** A program, which may have been placed to start before its section. */
  function RunProgram(cx: Context, start: int, end: nat, target: Word, st: State): (r: Outcome)
    requires Wf(st)
    ensures r.ok || r.strayed ==> Wf(r.st)
  {
    if end - start > MAX_CFI then Outcome(false, false, st)
    else if start < 0 then Outcome(false, true, st)
    else Run(cx, start, end, target, st)
  }

  /** `struct unwind_state`, updated in place by the interpreter. */
  class UnwindState {
    var loc: Word
    var codeAlign: Word
    var dataAlign: Word
    var stackDepth: nat
    var cieRegs: seq<Item>
    const reg: array<Row>

    ghost function View(): State
      reads this, reg
    {
      State(loc, codeAlign, dataAlign, stackDepth, reg[..], cieRegs)
    }

    ghost predicate Valid()
      reads this, reg
    {
      Wf(View())
    }

    /** All rules `Same`, except that the columns beyond the real registers start `Nowhere`. */
    constructor ()
      ensures Valid() && fresh(reg)
      ensures View() == Cleared()
    {
      var zero := Row(RegOff(0, 0), seq(COLUMNS, _ => Same));
      loc, codeAlign, dataAlign, stackDepth := 0, 0, 0, 0;
      cieRegs := seq(COLUMNS, _ => Same);
      reg := new Row[MAX_DEPTH](_ => zero);
      new;
      reg[0] := zero.(regs := zero.regs[PC_COLUMN := Nowhere]);
      assert reg[..] == Cleared().rows;
    }

    method SetRow(row: Row)
      requires Valid() && WfRow(row)
      modifies reg
      ensures Valid() && View() == WithRow(old(View()), row)
    {
      reg[stackDepth] := row;
      assert reg[..] == old(reg[..])[stackDepth := row];
    }

    method AssignRule(column: Word, item: Item)
      requires Valid()
      modifies reg
      ensures Valid() && View() == SetRule(old(View()), column, item)
    {
      if column < COLUMNS {
        var row := reg[stackDepth];
        SetRow(row.(regs := row.regs[column := item]));
      }
    }

    method AssignCfa(cfa: Cfa)
      requires Valid()
      modifies reg
      ensures Valid() && View() == SetCfa(old(View()), cfa)
    {
      SetRow(reg[stackDepth].(cfa := cfa));
    }

    method AdvanceLoc(delta: nat) returns (ok: bool)
      modifies this`loc
      ensures forall cur :: Step(cur, View(), ok) == Advance(old(View()), delta, cur)
    {
      loc := Wrap(loc + Product(delta, codeAlign));
      ok := delta > 0;
    }

    /** Instructions that set a register rule. */
    method ExecRule(buf: seq<Byte>, op: nat, start: nat, end: nat) returns (cur: nat)
      requires Valid()
      requires IsRuleOp(op)
      modifies reg
      ensures forall cx: Context :: cx.sec.buf == buf ==>
                Step(cur, View(), true) == ExecExtended(cx, op, start, end, old(View()))
    {
      var column, at := ReadUleb128(buf, start, end);
      cur := at;
      var operand;
      match op {
        case CFA_OFFSET_EXTENDED => operand, cur := ReadUleb128(buf, at, end);
                     AssignRule(column, Memory(Factored(operand, dataAlign)));
        case CFA_VAL_OFFSET => operand, cur := ReadUleb128(buf, at, end);
                     AssignRule(column, Value(Factored(operand, dataAlign)));
        case CFA_OFFSET_EXTENDED_SF => operand, cur := ReadSleb128(buf, at, end);
                     AssignRule(column, Memory(Factored(operand, dataAlign)));
        case CFA_VAL_OFFSET_SF => operand, cur := ReadSleb128(buf, at, end);
                     AssignRule(column, Value(Factored(operand, dataAlign)));
        case CFA_RESTORE_EXTENDED => if column < COLUMNS { AssignRule(column, cieRegs[column]); }
        case CFA_UNDEFINED => AssignRule(column, Nowhere);
        case CFA_SAME_VALUE => AssignRule(column, Same);
        case CFA_REGISTER => operand, cur := ReadUleb128(buf, at, end);
                     AssignRule(column, Register(operand));
        case CFA_GNU_NEGATIVE_OFFSET_EXTENDED => operand, cur := ReadUleb128(buf, at, end);
                     AssignRule(column, Memory(Negated(operand)));
        case _ =>
          operand, cur := ReadUleb128(buf, at, end);
          if (cur > end || end - cur >= operand) && column < COLUMNS {
            AssignRule(column, if op == CFA_VAL_EXPRESSION then ValExpr(at) else Expr(at));
            cur := cur + operand;
          }
      }
    }

    /** Instructions that define or edit the CFA. */
    method ExecCfa(buf: seq<Byte>, op: nat, start: nat, end: nat) returns (cur: nat)
      requires Valid()
      requires IsCfaOp(op)
      modifies reg
      ensures forall cx: Context :: cx.sec.buf == buf ==>
                Step(cur, View(), true) == ExecExtended(cx, op, start, end, old(View()))
    {
      cur := start;
      var cfa := reg[stackDepth].cfa;
      var operand;
      match op {
        case CFA_DEF_CFA | CFA_DEF_CFA_SF =>
          var column, at := ReadUleb128(buf, start, end);
          if op == CFA_DEF_CFA {
            operand, cur := ReadUleb128(buf, at, end);
          } else {
            operand, cur := ReadSleb128(buf, at, end);
            operand := Factored(operand, dataAlign);
          }
          AssignCfa(RegOff(column, operand));
        case CFA_DEF_CFA_REGISTER =>
          if cfa.RegOff? {
            operand, cur := ReadUleb128(buf, start, end);
            AssignCfa(cfa.(reg := operand));
          }
        case CFA_DEF_CFA_OFFSET | CFA_DEF_CFA_OFFSET_SF =>
          if cfa.RegOff? {
            if op == CFA_DEF_CFA_OFFSET {
              operand, cur := ReadUleb128(buf, start, end);
            } else {
              operand, cur := ReadSleb128(buf, start, end);
              operand := Factored(operand, dataAlign);
            }
            AssignCfa(cfa.(off := operand));
          }
        case _ =>
          operand, cur := ReadUleb128(buf, start, end);
          if cur < end && end - cur >= operand {
            AssignCfa(CfaExpr(start));
            cur := cur + operand;
          }
      }
    }

    method ExecOther(cx: Context, op: nat, start: nat, end: nat) returns (cur: nat, ok: bool)
      requires Valid()
      requires !IsRuleOp(op) && !IsCfaOp(op)
      modifies this`loc, this`stackDepth, reg
      ensures Step(cur, View(), ok) == ExecExtended(cx, op, start, end, old(View()))
    {
      var buf := cx.sec.buf;
      cur, ok := start, true;
      match op {
        case CFA_NOP =>
        case CFA_SET_LOC =>
          var p := ReadPointer(cx.sec, start, end, cx.ptrType);
          loc, cur, ok := p.value, p.pos, p.value != 0;
        case CFA_ADVANCE_LOC1 =>
          ok := start < end;
          if ok { ok := AdvanceLoc(ByteAt(buf, start)); cur := start + 1; }
        case CFA_ADVANCE_LOC2 =>
          ok := start <= end + 2;
          if ok { ok := AdvanceLoc(U16At(buf, start)); cur := start + 2; }
        case CFA_ADVANCE_LOC4 =>
          ok := start <= end + 4;
          if ok { ok := AdvanceLoc(U32At(buf, start)); cur := start + 4; }
        case CFA_REMEMBER_STATE =>
          stackDepth := stackDepth + 1;
          if stackDepth >= MAX_DEPTH { return cur, false; }
          reg[stackDepth] := reg[stackDepth - 1];
          assert reg[..] == old(reg[..])[stackDepth := old(reg[..])[stackDepth - 1]];
        case CFA_RESTORE_STATE =>
          if stackDepth == 0 { return cur, false; }
          stackDepth := stackDepth - 1;
        case CFA_GNU_ARGS_SIZE =>
          var _, at := ReadUleb128(buf, start, end);
          cur := at;
        case _ =>
          ok := false;
      }
    }

    method ExecOne(cx: Context, start: nat, end: nat) returns (cur: nat, ok: bool)
      requires Valid()
      modifies this`loc, this`stackDepth, reg
      ensures Step(cur, View(), ok) == Exec(cx, start, end, old(View()))
    {
      var buf := cx.sec.buf;
      var b := ByteAt(buf, start);
      var low := b % 64;
      cur, ok := start + 1, true;
      match b / 64 {
        case 0 =>
          if IsRuleOp(low) {
            cur := ExecRule(buf, low, start + 1, end);
          } else if IsCfaOp(low) {
            cur := ExecCfa(buf, low, start + 1, end);
          } else {
            cur, ok := ExecOther(cx, low, start + 1, end);
          }
        case 1 =>
          ok := AdvanceLoc(low);
        case 2 =>
          var operand, at := ReadUleb128(buf, start + 1, end);
          cur := at;
          AssignRule(low, Memory(Factored(operand, dataAlign)));
        case _ =>
          if low < COLUMNS { AssignRule(low, cieRegs[low]); }
      }
    }

    method RunCfiProgram(cx: Context, start: int, end: nat, target: Word) returns (ok: bool, strayed: bool)
      requires Valid()
      modifies this`loc, this`stackDepth, reg
      ensures Outcome(ok, strayed, View()) == RunProgram(cx, start, end, target, old(View()))
    {
      strayed := false;
      if end - start > MAX_CFI {
        return false, false;
      }
      if start < 0 {
        return false, true;
      }
      var cur: nat := start;
      while cur < end
        invariant Valid()
        invariant Run(cx, cur, end, target, View()) == Run(cx, start, end, target, old(View()))
        decreases end - cur
      {
        cur, ok := ExecOne(cx, cur, end);
        strayed := ok && Strays(cx, cur, end);
        if !ok || (cur > end && !strayed) {
          return false, false;
        }
        if target != 0 && target < loc {
          return true, strayed;
        }
        if strayed {
          return false, true;
        }
      }
      ok, strayed := cur == end, false;
    }
  }

  function ClearedRow(): Row {
    Row(RegOff(0, 0), seq(COLUMNS, _ => Same))
  }

  function Cleared(): (r: State)
    ensures Wf(r)
  {
    var zero := ClearedRow();
    State(0, 0, 0, 0, [zero.(regs := zero.regs[PC_COLUMN := Nowhere]), zero, zero, zero], seq(COLUMNS, _ => Same))
  }
}
