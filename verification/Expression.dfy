/** The DWARF expression evaluator (section 2.5 of DWARF 4): a stack machine of eight slots
    over raw bytes. */
module Expression {
  import opened Words
  import opened Leb128
  import opened UserMemory
  import CfiState

  // Opcodes.
  const OP_ADDR: Byte := 0x03
  const OP_DEREF: Byte := 0x06
  const OP_CONST1U: Byte := 0x08
  const OP_CONST1S: Byte := 0x09
  const OP_CONST2U: Byte := 0x0a
  const OP_CONST2S: Byte := 0x0b
  const OP_CONST4U: Byte := 0x0c
  const OP_CONST4S: Byte := 0x0d
  const OP_CONST8U: Byte := 0x0e
  const OP_CONST8S: Byte := 0x0f
  const OP_CONSTU: Byte := 0x10
  const OP_CONSTS: Byte := 0x11
  const OP_DUP: Byte := 0x12
  const OP_DROP: Byte := 0x13
  const OP_OVER: Byte := 0x14
  const OP_PICK: Byte := 0x15
  const OP_SWAP: Byte := 0x16
  const OP_ABS: Byte := 0x19
  const OP_AND: Byte := 0x1a
  const OP_DIV: Byte := 0x1b
  const OP_MINUS: Byte := 0x1c
  const OP_MOD: Byte := 0x1d
  const OP_MUL: Byte := 0x1e
  const OP_NEG: Byte := 0x1f
  const OP_NOT: Byte := 0x20
  const OP_OR: Byte := 0x21
  const OP_PLUS: Byte := 0x22
  const OP_PLUS_UCONST: Byte := 0x23
  const OP_SHL: Byte := 0x24
  const OP_SHR: Byte := 0x25
  const OP_SHRA: Byte := 0x26
  const OP_XOR: Byte := 0x27
  const OP_BRA: Byte := 0x28
  const OP_EQ: Byte := 0x29
  const OP_GE: Byte := 0x2a
  const OP_GT: Byte := 0x2b
  const OP_LE: Byte := 0x2c
  const OP_LT: Byte := 0x2d
  const OP_NE: Byte := 0x2e
  const OP_SKIP: Byte := 0x2f
  const OP_LIT0: Byte := 0x30
  const OP_LIT31: Byte := 0x4f
  const OP_BREG0: Byte := 0x70
  const OP_BREG31: Byte := 0x8f
  const OP_BREGX: Byte := 0x92
  const OP_DEREF_SIZE: Byte := 0x94
  const OP_NOP: Byte := 0x96

  const SLOTS: nat := 8
  const COLUMNS: nat := CfiState.COLUMNS

  /** What an expression is evaluated against: the section that holds it, the registers of the
      frame and the memory of the process. `base` is where the section is mapped, `junk` is what
      the stack slots hold before anything is pushed. */
  datatype Env = Env(buf: seq<Byte>, base: Word, regs: seq<Word>, mem: Memory, junk: seq<Word>)

  predicate WfEnv(env: Env) {
    |env.regs| == COLUMNS && |env.junk| == SLOTS
  }

  datatype Stack = Stack(slots: seq<Word>, sp: nat)

  predicate Wf(s: Stack) {
    |s.slots| == SLOTS && s.sp <= SLOTS
  }

  function Push(s: Stack, v: Word): (r: Option<Stack>)
    requires Wf(s)
    ensures r.Some? <==> s.sp < SLOTS
    ensures r.Some? ==> Wf(r.value) && r.value.sp == s.sp + 1
  {
    if s.sp == SLOTS then None else Some(Stack(s.slots[s.sp := v], s.sp + 1))
  }

  datatype Popped = Popped(v: Word, s: Stack)

  function Pop(s: Stack): (r: Option<Popped>)
    requires Wf(s)
    ensures r.Some? <==> s.sp > 0
    ensures r.Some? ==> Wf(r.value.s) && r.value.s.sp == s.sp - 1
  {
    if s.sp == 0 then None else Some(Popped(s.slots[s.sp - 1], s.(sp := s.sp - 1)))
  }

  /** The cursor and stack after an operation. */
  datatype Next = Next(cur: nat, s: Stack)

  // ----- operations that push one value -----

  predicate IsLeaf(op: Byte) {
    || op == OP_ADDR || OP_CONST1U <= op <= OP_CONSTS || OP_LIT0 <= op <= OP_LIT31
    || OP_BREG0 <= op <= OP_BREG31 || op == OP_BREGX
  }

  /** Size and sign of the fixed-size constants. */
  function ConstantSize(op: Byte): nat {
    if op == OP_CONST1U || op == OP_CONST1S then 1
    else if op == OP_CONST2U || op == OP_CONST2S then 2
    else if op == OP_CONST4U || op == OP_CONST4S then 4
    else 8
  }

  predicate ConstantSigned(op: Byte) {
    op == OP_CONST1S || op == OP_CONST2S || op == OP_CONST4S || op == OP_CONST8S
  }

  function Constant(buf: seq<Byte>, op: Byte, cur: nat): Word {
    var n := ConstantSize(op);
    var raw := LittleEndian(buf, cur, n);
    Pow2Bytes();
    Pow2Monotone(8 * n, 64);
    if ConstantSigned(op) then SignExtend(raw, 8 * n) else raw
  }

  /** The pushed value and the cursor after its operands. */
  function Leaf(env: Env, op: Byte, cur: nat, end: nat): (r: Option<Decoded>)
    requires WfEnv(env) && IsLeaf(op)
    ensures r.Some? ==> r.value.cur >= cur
  {
    if op == OP_CONSTU then Some(GetUleb(env.buf, cur, end))
    else if op == OP_CONSTS then Some(GetSleb(env.buf, cur, end))
    else if OP_LIT0 <= op <= OP_LIT31 then Some(Decoded(op - OP_LIT0, cur))
    else if op >= OP_BREG0 then
      var reg := if op == OP_BREGX then GetUleb(env.buf, cur, end) else Decoded(op - OP_BREG0, cur);
      if reg.value >= COLUMNS then None
      else
        var off := GetSleb(env.buf, reg.cur, end);
        Some(Decoded(Wrap(env.regs[reg.value] + off.value), off.cur))
    else if end - cur < ConstantSize(op) then None
    else Some(Decoded(Constant(env.buf, op, cur), cur + ConstantSize(op)))
  }

  // ----- arithmetic -----

  predicate IsBinary(op: Byte) {
    || op in {OP_AND, OP_DIV, OP_MINUS, OP_MOD, OP_MUL, OP_OR, OP_PLUS, OP_SHL, OP_SHR, OP_SHRA, OP_XOR}
    || OP_EQ <= op <= OP_NE
  }

  function Truth(b: bool): Word {
    if b then 1 else 0
  }

  /** C division: truncation toward zero. */
  function TruncatedQuotient(a: int, b: int): int
    requires b != 0
  {
    if (a < 0) == (b < 0) then Magnitude(a) / Magnitude(b) else -(Magnitude(a) / Magnitude(b))
  }

  function Magnitude(a: int): nat {
    if a < 0 then -a else a
  }

  /** The one quotient that does not fit a `long`; the division instruction traps on it. */
  predicate DivisionTraps(a: Word, b: Word) {
    Signed(a) == -TWO63 && Signed(b) == -1
  }

  /** `a op b` on `long` patterns; shift counts are taken modulo 64. */
  function Binary(op: Byte, a: Word, b: Word): Attempt<Word>
    requires IsBinary(op)
  {
    match op
    case OP_AND => Done(And(a, b))
    case OP_OR => Done(Or(a, b))
    case OP_XOR => Done(Xor(a, b))
    case OP_PLUS => Done(Wrap(a + b))
    case OP_MINUS => Done(Wrap(a - b))
    case OP_MUL => Done(Wrap(Product(a, b)))
    case OP_DIV =>
      if b == 0 then Refused
      else if DivisionTraps(a, b) then Faulted
      else Done(Wrap(TruncatedQuotient(Signed(a), Signed(b))))
    case OP_MOD => if b == 0 then Refused else Done(a % b)
    case OP_SHL => Done(Wrap(Shl(a, b % 64)))
    case OP_SHR => Done(Wrap(a / Pow2(b % 64)))
    case OP_SHRA => Done(Wrap(Signed(a) / Pow2(b % 64)))
    case OP_EQ => Done(Truth(a == b))
    case OP_GE => Done(Truth(Signed(a) >= Signed(b)))
    case OP_GT => Done(Truth(Signed(a) > Signed(b)))
    case OP_LE => Done(Truth(Signed(a) <= Signed(b)))
    case OP_LT => Done(Truth(Signed(a) < Signed(b)))
    case _ => Done(Truth(a != b))
  }

  predicate IsUnary(op: Byte) {
    op == OP_NEG || op == OP_NOT || op == OP_PLUS_UCONST
  }

  /** `neg`, `not`, and `plus_uconst` with its operand. */
  function Unary(op: Byte, a: Word, operand: Word): Word
    requires IsUnary(op)
  {
    match op
    case OP_NEG => Wrap(0 - a)
    case OP_NOT => TWO64 - 1 - a
    case _ => Wrap(operand + a)
  }

  function AbsoluteValue(a: Word): Word {
    Wrap(Magnitude(Signed(a)))
  }

  // ----- one operation -----

  function ExecBinary(op: Byte, cur: nat, s: Stack): (r: Attempt<Next>)
    requires Wf(s) && IsBinary(op)
    ensures r.Done? ==> Wf(r.value.s) && r.value.cur == cur
  {
    var b := Pop(s);
    if b.None? then Refused else
    var a := Pop(b.value.s);
    if a.None? then Refused else
    match Binary(op, a.value.v, b.value.v)
    case Refused => Refused
    case Faulted => Faulted
    case Done(v) =>
      var pushed := Push(a.value.s, v);
      if pushed.None? then Refused else Done(Next(cur, pushed.value))
  }

  /** `PUSH(f(POP))`: the macro tests for a full stack before it pops. */
  function ExecUnary(env: Env, op: Byte, cur: nat, end: nat, s: Stack): (r: Option<Next>)
    requires Wf(s) && IsUnary(op)
    ensures r.Some? ==> Wf(r.value.s) && r.value.cur >= cur
  {
    var operand := if op == OP_PLUS_UCONST then GetUleb(env.buf, cur, end) else Decoded(0, cur);
    if s.sp == SLOTS then None else
    var a := Pop(s);
    if a.None? then None else
    var pushed := Push(a.value.s, Unary(op, a.value.v, operand.value));
    if pushed.None? then None else Some(Next(operand.cur, pushed.value))
  }

  /** A forward branch; a backward one is refused. */
  function Skip(env: Env, cur: nat, end: nat, s: Stack): (r: Option<Next>)
    requires Wf(s)
    ensures r.Some? ==> Wf(r.value.s) && r.value.cur >= cur
  {
    if end - cur < 2 then None else
    var off := U16At(env.buf, cur);
    if off >= 0x8000 || end - (cur + 2) < off then None else Some(Next(cur + 2 + off, s))
  }

  /** The slot `pick` copies: one above the DWARF position. */
  function Pick(n: nat, cur: nat, s: Stack): (r: Option<Next>)
    requires Wf(s)
    ensures r.Some? ==> Wf(r.value.s) && r.value.cur == cur
  {
    if n >= s.sp then None else
    var v := if s.sp - n < SLOTS then s.slots[s.sp - n] else 0;
    var pushed := Push(s, v);
    if pushed.None? then None else Some(Next(cur, pushed.value))
  }

  /** The load is tried; its value is not pushed. */
  function Deref(env: Env, size: nat, cur: nat, s: Stack): (r: Option<Next>)
    requires Wf(s)
    ensures r.Some? ==> Wf(r.value.s) && r.value.cur == cur
  {
    if size > 8 then None else
    var addr := Pop(s);
    if addr.None? then None
    else if size !in {1, 2, 4, 8} then None
    else if !env.mem.readable(addr.value.v, size) then None
    else Some(Next(cur, addr.value.s))
  }

  /** Stack shuffles and control. */
  function ExecOther(env: Env, op: Byte, cur: nat, end: nat, s: Stack): (r: Option<Next>)
    requires Wf(s)
    ensures r.Some? ==> Wf(r.value.s) && r.value.cur >= cur
  {
    match op
    case OP_NOP => Some(Next(cur, s))
    case OP_SKIP => Skip(env, cur, end, s)
    case OP_BRA =>
      var top := Pop(s);
      if top.None? then None
      else if top.value.v == 0 then Some(Next(cur, top.value.s))
      else Skip(env, cur, end, top.value.s)
    case OP_DUP =>
      var top := Pop(s);
      if top.None? then None else
      var once := Push(top.value.s, top.value.v);
      if once.None? then None else
      var twice := Push(once.value, top.value.v);
      if twice.None? then None else Some(Next(cur, twice.value))
    case OP_DROP =>
      var top := Pop(s);
      if top.None? then None else Some(Next(cur, top.value.s))
    case OP_SWAP =>
      var tos := Pop(s);
      if tos.None? then None else
      var nos := Pop(tos.value.s);
      if nos.None? then None else
      var once := Push(nos.value.s, tos.value.v);
      if once.None? then None else
      var twice := Push(once.value, nos.value.v);
      if twice.None? then None else Some(Next(cur, twice.value))
    case OP_OVER => Pick(1, cur, s)
    case OP_PICK => if end - cur < 1 then None else Pick(ByteAt(env.buf, cur), cur + 1, s)
    case OP_ABS =>
      var top := Pop(s);
      if top.None? then None else
      var pushed := Push(top.value.s, AbsoluteValue(top.value.v));
      if pushed.None? then None else Some(Next(cur, pushed.value))
    case OP_DEREF => Deref(env, 8, cur, s)
    case OP_DEREF_SIZE => if end - cur < 1 then None else Deref(env, ByteAt(env.buf, cur), cur + 1, s)
    case _ => None
  }

  function ExecOp(env: Env, op: Byte, cur: nat, end: nat, s: Stack): (r: Attempt<Next>)
    requires WfEnv(env) && Wf(s)
    ensures r.Done? ==> Wf(r.value.s) && r.value.cur >= cur
  {
    if IsLeaf(op) then
      var v := Leaf(env, op, cur, end);
      if v.None? then Refused else
      var pushed := Push(s, v.value.value);
      if pushed.None? then Refused else Done(Next(v.value.cur, pushed.value))
    else if IsBinary(op) then ExecBinary(op, cur, s)
    else if IsUnary(op) then Tried(ExecUnary(env, op, cur, end, s))
    else Tried(ExecOther(env, op, cur, end, s))
  }

  /** The loop and the final pop. */
  function Evaluate(env: Env, cur: nat, end: nat, s: Stack): Attempt<Word>
    requires WfEnv(env) && Wf(s)
    decreases end - cur
  {
    if cur >= end then
      var top := Pop(s);
      if top.None? then Refused else Done(top.value.v)
    else
      match ExecOp(env, ByteAt(env.buf, cur), cur + 1, end, s)
      case Refused => Refused
      case Faulted => Faulted
      case Done(n) => Evaluate(env, n.cur, end, n.s)
  }

  /** `compute_expr` on the expression whose length prefix lies at `ptr`. A length flagged as too
      long leaves a null cursor to read from, and a length that takes the end round the address
      space leaves nothing to evaluate. */
  function Compute(env: Env, ptr: nat): Attempt<Word>
    requires WfEnv(env)
  {
    var len := GetUnbounded(env.buf, ptr);
    if len.cur > ptr + |env.buf| + 1 then if len.value == 0 then Refused else Faulted
    else if env.base + len.cur + len.value >= TWO64 then Refused
    else Evaluate(env, len.cur, len.cur + len.value, Stack(env.junk, 0))
  }

  // ----- the operations in numbers -----

  /** C division: the quotient and remainder that truncation toward zero gives. */
  lemma QuotientTruncates(a: int, b: int)
    requires b != 0
    ensures var r := a - TruncatedQuotient(a, b) * b;
            (if b < 0 then b < r < -b else -b < r < b) && (r == 0 || (r < 0 <==> a < 0))
  {
    var m, n := Magnitude(a), Magnitude(b);
    var q := m / n;
    assert m == q * n + m % n;
    if (a < 0) == (b < 0) {
      assert q * b == if b < 0 then -(q * n) else q * n;
    } else {
      assert (-q) * b == if b < 0 then q * n else -(q * n);
    }
  }

  // What the operations that no tree compiles to do to the stack, by their numbers. `over` and
  // `pick` read one slot above the DWARF position, and the loads leave nothing.

  /** The slot on top of a stack that is not empty. */
  function Top(s: Stack): Word
    requires Wf(s)
  {
    if s.sp > 0 then s.slots[s.sp - 1] else 0
  }

  /** `nop`, `dup`, `drop` and `over`. */
  lemma ShuffleOperations(env: Env, cur: nat, end: nat, s: Stack)
    requires WfEnv(env) && Wf(s)
    ensures ExecOp(env, 0x96, cur, end, s) == Done(Next(cur, s))
    ensures ExecOp(env, 0x12, cur, end, s) ==
            if 0 < s.sp < 8 then Done(Next(cur, Stack(s.slots[s.sp := Top(s)], s.sp + 1))) else Refused
    ensures ExecOp(env, 0x13, cur, end, s) ==
            if s.sp > 0 then Done(Next(cur, Stack(s.slots, s.sp - 1))) else Refused
    ensures ExecOp(env, 0x14, cur, end, s) ==
            if 1 < s.sp < 8 then Done(Next(cur, Stack(s.slots[s.sp := Top(s)], s.sp + 1))) else Refused
  {
    hide Leaf, Binary, Unary;
    if s.sp > 0 {
      assert s.slots[s.sp - 1 := s.slots[s.sp - 1]] == s.slots;
    }
  }

  /** `swap` and `abs`. */
  lemma TopOperations(env: Env, cur: nat, end: nat, s: Stack)
    requires WfEnv(env) && Wf(s)
    ensures ExecOp(env, 0x16, cur, end, s) ==
            if s.sp < 2 then Refused
            else Done(Next(cur, s.(slots := s.slots[s.sp - 2 := Top(s)][s.sp - 1 := s.slots[s.sp - 2]])))
    ensures ExecOp(env, 0x19, cur, end, s) ==
            if s.sp < 1 then Refused
            else Done(Next(cur, s.(slots := s.slots[s.sp - 1 := if Top(s) < TWO63 then Top(s) else TWO64 - Top(s)])))
  {
    hide Leaf, Binary, Unary;
  }

  /** `pick`. */
  lemma PickOperation(env: Env, cur: nat, end: nat, s: Stack, i: int)
    requires WfEnv(env) && Wf(s) && i == ByteAt(env.buf, cur)
    ensures ExecOp(env, 0x15, cur, end, s) ==
            if cur < end && i < s.sp < 8
            then Done(Next(cur + 1, Stack(s.slots[s.sp := s.slots[s.sp - i]], s.sp + 1))) else Refused
  {
    hide Leaf, Binary, Unary;
  }

  /** `addr`, `deref` and `deref_size`. */
  lemma LoadOperations(env: Env, cur: nat, end: nat, s: Stack)
    requires WfEnv(env) && Wf(s)
    ensures ExecOp(env, 0x03, cur, end, s) ==
            if cur + 8 <= end && s.sp < 8
            then Done(Next(cur + 8, Stack(s.slots[s.sp := U64At(env.buf, cur)], s.sp + 1))) else Refused
    ensures ExecOp(env, 0x06, cur, end, s) ==
            if s.sp > 0 && env.mem.readable(Top(s), 8) then Done(Next(cur, Stack(s.slots, s.sp - 1))) else Refused
    ensures var size := ByteAt(env.buf, cur);
            ExecOp(env, 0x94, cur, end, s) ==
            if cur < end && s.sp > 0 && size in {1, 2, 4, 8} && env.mem.readable(Top(s), size)
            then Done(Next(cur + 1, Stack(s.slots, s.sp - 1))) else Refused
  {
    hide Binary, Unary, LittleEndian, Pow2, Uleb, Sleb;
    Pow2Bytes();
  }

  /** `skip` and `bra`, forward only. The operand of a branch not taken is not skipped. */
  lemma BranchOperations(env: Env, cur: nat, end: nat, s: Stack)
    requires WfEnv(env) && Wf(s)
    ensures var off := U16At(env.buf, cur);
            var inside := cur + 2 + off <= end && off < 0x8000;
            && ExecOp(env, 0x2f, cur, end, s) == (if inside then Done(Next(cur + 2 + off, s)) else Refused)
            && ExecOp(env, 0x28, cur, end, s) ==
               if s.sp == 0 then Refused
               else if Top(s) == 0 then Done(Next(cur, Stack(s.slots, s.sp - 1)))
               else if inside then Done(Next(cur + 2 + off, Stack(s.slots, s.sp - 1))) else Refused
  {
    hide Leaf, Binary, Unary, U16At;
  }

  /** Constants whose bytes do not reach the end and base registers that do not exist are refused. */
  lemma RefusedOperands(env: Env, op: Byte, cur: nat, end: nat, s: Stack)
    requires WfEnv(env) && Wf(s)
    requires || (op in {0x08, 0x09} && end < cur + 1) || (op in {0x0a, 0x0b} && end < cur + 2)
             || (op in {0x0c, 0x0d} && end < cur + 4) || (op in {0x0e, 0x0f} && end < cur + 8)
             || 0x81 <= op <= 0x8f || (op == 0x92 && GetUleb(env.buf, cur, end).value >= 17)
    ensures ExecOp(env, op, cur, end, s) == Refused
  {
    hide Uleb, Sleb, Constant;
  }

  /** Every other number is refused. */
  lemma UnknownOperations(env: Env, op: Byte, cur: nat, end: nat, s: Stack)
    requires WfEnv(env) && Wf(s)
    requires || op < 0x03 || op in {0x04, 0x05, 0x07, 0x17, 0x18, 0x93, 0x95}
             || 0x50 <= op < 0x70 || 0x90 <= op < 0x92 || op > 0x96
    ensures ExecOp(env, op, cur, end, s) == Refused
  {
    hide Uleb, Sleb, Constant;
  }

  /** The `long stack[8]` and `sp` of the evaluator. */
  class EvalStack {
    const slot: array<Word>
    var sp: nat

    ghost function View(): Stack
      reads this, slot
    {
      Stack(slot[..], sp)
    }

    ghost predicate Valid()
      reads this, slot
    {
      Wf(View())
    }

    constructor (junk: seq<Word>)
      requires |junk| == SLOTS
      ensures Valid() && fresh(slot) && View() == Stack(junk, 0)
    {
      slot := new Word[SLOTS](i requires 0 <= i < SLOTS => junk[i]);
      sp := 0;
    }

    method PushValue(v: Word) returns (ok: bool)
      requires Valid()
      modifies this, slot
      ensures Valid()
      ensures ok <==> Push(old(View()), v).Some?
      ensures View() == if ok then Push(old(View()), v).value else old(View())
    {
      if sp == SLOTS {
        return false;
      }
      slot[sp] := v;
      sp := sp + 1;
      ok := true;
      assert slot[..] == old(slot[..])[old(sp) := v];
    }

    method PopValue() returns (ok: bool, v: Word)
      requires Valid()
      modifies this`sp
      ensures Valid()
      ensures ok <==> Pop(old(View())).Some?
      ensures ok ==> Popped(v, View()) == Pop(old(View())).value
      ensures !ok ==> View() == old(View())
    {
      if sp == 0 {
        return false, 0;
      }
      sp := sp - 1;
      return true, slot[sp];
    }

    method RunBinary(op: Byte) returns (ok: bool, fault: bool)
      requires Valid() && IsBinary(op)
      modifies this, slot
      ensures Valid()
      ensures forall cur :: var r := ExecBinary(op, cur, old(View()));
                ok == r.Done? && fault == r.Faulted? && (ok ==> r.value == Next(cur, View()))
    {
      hide Binary;
      fault := false;
      var b, a;
      ok, b := PopValue();
      if !ok { return; }
      ok, a := PopValue();
      if !ok { return; }
      var v := Binary(op, a, b);
      if !v.Done? { return false, v.Faulted?; }
      ok := PushValue(v.value);
    }

    method RunUnary(env: Env, op: Byte, start: nat, end: nat) returns (ok: bool, cur: nat)
      requires Valid() && IsUnary(op)
      modifies this, slot
      ensures Valid()
      ensures var r := ExecUnary(env, op, start, end, old(View()));
              ok == r.Some? && (ok ==> r.value == Next(cur, View()))
    {
      var operand := 0;
      cur := start;
      if op == OP_PLUS_UCONST {
        operand, cur := ReadUleb128(env.buf, start, end);
      }
      if sp == SLOTS { return false, cur; }
      var a;
      ok, a := PopValue();
      if !ok { return; }
      ok := PushValue(Unary(op, a, operand));
    }

    method RunDup() returns (ok: bool)
      requires Valid()
      modifies this, slot
      ensures Valid()
      ensures forall env, cur, end :: var r := ExecOther(env, OP_DUP, cur, end, old(View()));
                ok == r.Some? && (ok ==> r.value == Next(cur, View()))
    {
      var v;
      ok, v := PopValue();
      if !ok { return; }
      ok := PushValue(v);
      if !ok { return; }
      ok := PushValue(v);
    }

    method RunSwap() returns (ok: bool)
      requires Valid()
      modifies this, slot
      ensures Valid()
      ensures forall env, cur, end :: var r := ExecOther(env, OP_SWAP, cur, end, old(View()));
                ok == r.Some? && (ok ==> r.value == Next(cur, View()))
    {
      var tos, nos;
      ok, tos := PopValue();
      if !ok { return; }
      ok, nos := PopValue();
      if !ok { return; }
      ok := PushValue(tos);
      if !ok { return; }
      ok := PushValue(nos);
    }

    method RunPick(n: nat) returns (ok: bool)
      requires Valid()
      modifies this, slot
      ensures Valid()
      ensures forall cur :: var r := Pick(n, cur, old(View()));
                ok == r.Some? && (ok ==> r.value == Next(cur, View()))
    {
      if n >= sp { return false; }
      ok := PushValue(if sp - n < SLOTS then slot[sp - n] else 0);
    }

    method RunDeref(env: Env, size: nat) returns (ok: bool)
      requires Valid()
      modifies this, slot
      ensures Valid()
      ensures forall cur :: var r := Deref(env, size, cur, old(View()));
                ok == r.Some? && (ok ==> r.value == Next(cur, View()))
    {
      if size > 8 { return false; }
      var addr;
      ok, addr := PopValue();
      if !ok { return; }
      ok := size in {1, 2, 4, 8} && env.mem.readable(addr, size);
    }

    method RunSkip(env: Env, start: nat, end: nat) returns (ok: bool, cur: nat)
      requires Valid()
      ensures var r := Skip(env, start, end, View());
              ok == r.Some? && (ok ==> r.value == Next(cur, View()))
    {
      cur := start;
      if end - start < 2 { return false, cur; }
      var off := U16At(env.buf, start);
      cur := start + 2;
      if off >= 0x8000 || end - cur < off { return false, cur; }
      return true, cur + off;
    }

    method RunOther(env: Env, op: Byte, start: nat, end: nat) returns (ok: bool, cur: nat)
      requires Valid()
      modifies this, slot
      ensures Valid()
      ensures var r := ExecOther(env, op, start, end, old(View()));
              ok == r.Some? && (ok ==> r.value == Next(cur, View()))
    {
      ok, cur := true, start;
      var v;
      match op {
        case OP_NOP =>
        case OP_SKIP => ok, cur := RunSkip(env, start, end);
        case OP_BRA =>
          ok, v := PopValue();
          if !ok { return; }
          if v != 0 { ok, cur := RunSkip(env, start, end); }
        case OP_DUP => ok := RunDup();
        case OP_DROP => ok, v := PopValue();
        case OP_SWAP => ok := RunSwap();
        case OP_OVER => ok := RunPick(1);
        case OP_PICK =>
          if end - start < 1 { return false, cur; }
          cur := start + 1;
          ok := RunPick(ByteAt(env.buf, start));
        case OP_ABS =>
          ok, v := PopValue();
          if !ok { return; }
          ok := PushValue(AbsoluteValue(v));
        case OP_DEREF => ok := RunDeref(env, 8);
        case OP_DEREF_SIZE =>
          if end - start < 1 { return false, cur; }
          cur := start + 1;
          ok := RunDeref(env, ByteAt(env.buf, start));
        case _ => ok := false;
      }
    }

    method RunOp(env: Env, op: Byte, start: nat, end: nat) returns (ok: bool, fault: bool, cur: nat)
      requires Valid() && WfEnv(env)
      modifies this, slot
      ensures Valid()
      ensures var r := ExecOp(env, op, start, end, old(View()));
              ok == r.Done? && fault == r.Faulted? && (ok ==> r.value == Next(cur, View()))
    {
      cur, fault := start, false;
      if IsLeaf(op) {
        var v := Leaf(env, op, start, end);
        if v.None? { return false, false, cur; }
        cur := v.value.cur;
        ok := PushValue(v.value.value);
      } else if IsBinary(op) {
        ok, fault := RunBinary(op);
      } else if IsUnary(op) {
        ok, cur := RunUnary(env, op, start, end);
      } else {
        ok, cur := RunOther(env, op, start, end);
      }
    }
  }

  method ComputeExpr(env: Env, ptr: nat) returns (r: Attempt<Word>)
    requires WfEnv(env)
    ensures r == Compute(env, ptr)
  {
    hide ExecOp, Uleb;
    var len, start := ReadUleb128(env.buf, ptr, ptr + |env.buf| + 1);
    if start > ptr + |env.buf| + 1 {
      return if len == 0 then Refused else Faulted;
    }
    if env.base + start + len >= TWO64 {
      return Refused;
    }
    var end := start + len;
    var stack := new EvalStack(env.junk);
    var cur := start;
    while cur < end
      invariant stack.Valid() && fresh(stack) && fresh(stack.slot)
      invariant Evaluate(env, cur, end, stack.View()) == Compute(env, ptr)
      decreases end - cur
    {
      var ok, fault;
      ok, fault, cur := stack.RunOp(env, ByteAt(env.buf, cur), cur + 1, end);
      if !ok {
        return if fault then Faulted else Refused;
      }
    }
    var ok, v := stack.PopValue();
    r := if ok then Done(v) else Refused;
  }
}
