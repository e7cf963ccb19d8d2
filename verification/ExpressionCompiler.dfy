/** Expression trees, their postfix DWARF encoding, and the proof that evaluating the encoding
    gives the tree's value exactly when eight stack slots suffice. */
module ExpressionCompiler {
  import opened Words
  import opened Leb128
  import opened Expression

  datatype BinOp =
    | Plus | Minus | Mul | Div | Mod
    | BitAnd | BitOr | BitXor
    | ShiftLeft | ShiftRight | ShiftRightSigned
    | Eq | Ne | Ge | Gt | Le | Lt

  datatype UnOp = Neg | Not

  datatype Tree =
    | Lit(n: Word)
    | FixedU(size: nat, n: Word)
    | FixedS(size: nat, s: int)
    | ConstU(n: Word)
    | ConstS(s: int)
    | BaseReg(reg: nat, s: int)
    | BaseRegX(reg: nat, s: int)
    | Node(op: BinOp, l: Tree, r: Tree)
    | Apply(f: UnOp, e: Tree)
    | AddConst(e: Tree, n: Word)

  predicate FixedSize(size: nat) {
    size == 1 || size == 2 || size == 4 || size == 8
  }

  /** Leaves that the encodings have room for and the decoders read back exactly. */
  predicate Encodable(t: Tree) {
    match t
    case Lit(n) => n < 32
    case FixedU(size, n) => FixedSize(size) && n < Pow2(8 * size)
    case FixedS(size, s) => FixedSize(size) && 0 - Pow2(8 * size - 1) <= s < Pow2(8 * size - 1)
    case ConstU(_) => true
    case ConstS(s) => SlebExact(s)
    case BaseReg(reg, s) => reg < COLUMNS && SlebExact(s)
    case BaseRegX(reg, s) => reg < COLUMNS && SlebExact(s)
    case Node(_, l, r) => Encodable(l) && Encodable(r)
    case Apply(_, e) => Encodable(e)
    case AddConst(e, _) => Encodable(e)
  }

  // ----- the value of a tree -----

  /** Operators on the signed numbers that words stand for; bit operations, the unsigned remainder
      and the unsigned shift on the words. A shift is a multiplication or a division rounded down
      by a power of two, its count taken modulo 64. Division by zero is an error, and the one
      quotient that is too large for a `long` a fault. */
  function Meaning(op: BinOp, a: Word, b: Word): Attempt<Word> {
    var x, y := Signed(a), Signed(b);
    match op
    case Plus => Done(Wrap(x + y))
    case Minus => Done(Wrap(x - y))
    case Mul => Done(Wrap(x * y))
    case Div =>
      if y == 0 then Refused
      else if x == -TWO63 && y == -1 then Faulted
      else Done(Wrap(TruncatedQuotient(x, y)))
    case Mod => if b == 0 then Refused else Done(a % b)
    case BitAnd => Done(And(a, b))
    case BitOr => Done(Or(a, b))
    case BitXor => Done(Xor(a, b))
    case ShiftLeft => Done(Wrap(x * Pow2(b % 64)))
    case ShiftRight => Done(Wrap(a / Pow2(b % 64)))
    case ShiftRightSigned => Done(Wrap(x / Pow2(b % 64)))
    case Eq => Done(if x == y then 1 else 0)
    case Ne => Done(if x != y then 1 else 0)
    case Ge => Done(if x >= y then 1 else 0)
    case Gt => Done(if x > y then 1 else 0)
    case Le => Done(if x <= y then 1 else 0)
    case Lt => Done(if x < y then 1 else 0)
  }

  function UnaryMeaning(f: UnOp, a: Word): Word {
    match f
    case Neg => Wrap(-Signed(a))
    case Not => Wrap(-Signed(a) - 1)
  }

  function LeafValue(t: Tree, regs: seq<Word>): Word
    requires |regs| == COLUMNS && Encodable(t) && IsLeafTree(t)
  {
    match t
    case Lit(n) => n
    case FixedU(_, n) => n
    case FixedS(_, s) => Wrap(s)
    case ConstU(n) => n
    case ConstS(s) => Wrap(s)
    case BaseReg(reg, s) => Wrap(regs[reg] + s)
    case BaseRegX(reg, s) => Wrap(regs[reg] + s)
  }

  /** The tree's 64-bit value, an error when it divides by zero, a fault when a division traps;
      the left operand comes first. */
  function Value(t: Tree, regs: seq<Word>): Attempt<Word>
    requires |regs| == COLUMNS && Encodable(t)
  {
    match t
    case Node(op, l, r) =>
      var a, b := Value(l, regs), Value(r, regs);
      if !a.Done? then a else if !b.Done? then b else Meaning(op, a.value, b.value)
    case Apply(f, e) =>
      var a := Value(e, regs);
      if !a.Done? then a else Done(UnaryMeaning(f, a.value))
    case AddConst(e, n) =>
      var a := Value(e, regs);
      if !a.Done? then a else Done(Wrap(a.value + n))
    case _ => Done(LeafValue(t, regs))
  }

  /** The same with only so many free stack slots: a leaf needs one, and a unary operator one more
      than its operand, since the push macro looks for room before it pops. */
  function ValueWithin(t: Tree, regs: seq<Word>, free: nat): (r: Attempt<Word>)
    requires |regs| == COLUMNS && Encodable(t)
    ensures r.Done? ==> free > 0
  {
    match t
    case Node(op, l, r) =>
      var a := ValueWithin(l, regs, free);
      if !a.Done? then a else
      var b := ValueWithin(r, regs, free - 1);
      if !b.Done? then b else Meaning(op, a.value, b.value)
    case Apply(f, e) =>
      var a := ValueWithin(e, regs, free);
      if !a.Done? then a else if free < 2 then Refused else Done(UnaryMeaning(f, a.value))
    case AddConst(e, n) =>
      var a := ValueWithin(e, regs, free);
      if !a.Done? then a else if free < 2 then Refused else Done(Wrap(a.value + n))
    case _ => if free == 0 then Refused else Done(LeafValue(t, regs))
  }

  /** A division in the tree traps. */
  predicate Traps(t: Tree, regs: seq<Word>)
    requires |regs| == COLUMNS && Encodable(t)
  {
    match t
    case Node(op, l, r) =>
      || Traps(l, regs) || Traps(r, regs)
      || (op.Div? && Value(l, regs).Done? && Value(r, regs).Done?
          && Signed(Value(l, regs).value) == -TWO63 && Signed(Value(r, regs).value) == -1)
    case Apply(_, e) => Traps(e, regs)
    case AddConst(e, _) => Traps(e, regs)
    case _ => false
  }

  /** The stack slots an evaluation needs. A unary operator needs a free slot beside its
      operand, since the push macro looks for room before it pops. */
  function Slots(t: Tree): nat {
    match t
    case Node(_, l, r) => Max(Slots(l), 1 + Slots(r))
    case Apply(_, e) => Max(Slots(e), 2)
    case AddConst(e, _) => Max(Slots(e), 2)
    case _ => 1
  }

  function Max(a: nat, b: nat): nat {
    if a < b then b else a
  }

  lemma MeaningFaults(op: BinOp, a: Attempt<Word>, b: Attempt<Word>)
    ensures a.Done? && b.Done? ==>
              (Meaning(op, a.value, b.value).Faulted? <==>
                 op.Div? && Signed(a.value) == -TWO63 && Signed(b.value) == -1)
  {
    hide TruncatedQuotient, Wrap, Pow2, And, Or, Xor;
  }

  /** With enough slots the value is the tree's; without, there is none, and the evaluation ends in
      an error unless a division traps before it. */
  lemma {:induction false} SlotsSuffice(t: Tree, regs: seq<Word>, free: nat)
    requires |regs| == COLUMNS && Encodable(t)
    ensures var v := ValueWithin(t, regs, free);
            && (Slots(t) <= free ==> v == Value(t, regs))
            && (Slots(t) > free ==> !v.Done?)
            && (v.Done? ==> v == Value(t, regs))
            && (v.Faulted? ==> Traps(t, regs))
    decreases t
  {
    hide LeafValue, UnaryMeaning, Wrap, Meaning;
    match t {
      case Node(op, l, r) =>
        SlotsSuffice(l, regs, free);
        if free > 0 {
          SlotsSuffice(r, regs, free - 1);
          MeaningFaults(op, Value(l, regs), Value(r, regs));
        }
      case Apply(_, e) => SlotsSuffice(e, regs, free);
      case AddConst(e, _) => SlotsSuffice(e, regs, free);
      case _ =>
    }
  }

  // ----- compilation -----

  // The numbers are those of the operation table in section 7.7.1 of DWARF 4.

  function Code(op: BinOp): Byte {
    match op
    case Plus => 0x22
    case Minus => 0x1c
    case Mul => 0x1e
    case Div => 0x1b
    case Mod => 0x1d
    case BitAnd => 0x1a
    case BitOr => 0x21
    case BitXor => 0x27
    case ShiftLeft => 0x24
    case ShiftRight => 0x25
    case ShiftRightSigned => 0x26
    case Eq => 0x29
    case Ne => 0x2e
    case Ge => 0x2a
    case Gt => 0x2b
    case Le => 0x2c
    case Lt => 0x2d
  }

  function FixedCode(size: nat): Byte
    requires FixedSize(size)
  {
    if size == 1 then 0x08
    else if size == 2 then 0x0a
    else if size == 4 then 0x0c
    else 0x0e
  }

  predicate IsLeafTree(t: Tree) {
    !t.Node? && !t.Apply? && !t.AddConst?
  }

  function LeafCode(t: Tree): (b: Byte)
    requires IsLeafTree(t) && Encodable(t)
  {
    match t
    case Lit(n) => 0x30 + n
    case FixedU(size, _) => FixedCode(size)
    case FixedS(size, _) => FixedCode(size) + 1
    case ConstU(_) => 0x10
    case ConstS(_) => 0x11
    case BaseReg(reg, _) => 0x70 + reg
    case BaseRegX(_, _) => 0x92
  }

  function LeafOperands(t: Tree): seq<Byte>
    requires IsLeafTree(t) && Encodable(t)
  {
    match t
    case Lit(n) => []
    case FixedU(size, n) => ToLittleEndian(n, size)
    case FixedS(size, s) => ToLittleEndian(Pattern(s, size), size)
    case ConstU(n) => UlebEncode(n)
    case ConstS(s) => SlebEncode(s)
    case BaseReg(_, s) => SlebEncode(s)
    case BaseRegX(reg, s) => UlebEncode(reg) + SlebEncode(s)
  }

  /** The two's complement pattern of a number in `size` bytes. */
  function Pattern(s: int, size: nat): nat
    requires size > 0 && 0 - Pow2(8 * size - 1) <= s
  {
    assert Pow2(8 * size) == 2 * Pow2(8 * size - 1);
    if s < 0 then s + Pow2(8 * size) else s
  }

  function Compile(t: Tree): seq<Byte>
    requires Encodable(t)
  {
    match t
    case Node(op, l, r) => Compile(l) + Compile(r) + [Code(op)]
    case Apply(f, e) => Compile(e) + [if f.Neg? then 0x1f else 0x20]
    case AddConst(e, n) => Compile(e) + [0x23] + UlebEncode(n)
    case _ => [LeafCode(t)] + LeafOperands(t)
  }

  // ----- correctness -----

  lemma SignedWrap(a: Word)
    ensures Wrap(Signed(a)) == a
  {
  }

  lemma MulMeaning(a: Word, b: Word)
    ensures Wrap(Signed(a) * Signed(b)) == Wrap(Product(a, b))
  {
    WrapProduct(Signed(a), Signed(b));
    SignedWrap(a);
    SignedWrap(b);
  }

  lemma SumMeaning(a: Word, b: Word)
    ensures Wrap(Signed(a) + Signed(b)) == Wrap(a + b) && Wrap(Signed(a) - Signed(b)) == Wrap(a - b)
  {
  }

  lemma {:induction false} ShlIsProduct(x: int, s: nat)
    ensures Shl(x, s) == x * Pow2(s)
  {
    if s > 0 {
      ShlIsProduct(x, s - 1);
      var p := Pow2(s - 1);
      assert 2 * (x * p) == x * (2 * p);
    }
  }

  lemma {:induction false} ShlModulo(a: Word, s: nat)
    ensures Wrap(Shl(a, s)) == Wrap(Shl(Signed(a), s))
  {
    if s > 0 {
      ShlModulo(a, s - 1);
      DoubleModulo(Shl(a, s - 1), Shl(Signed(a), s - 1));
    }
  }

  lemma DoubleModulo(u: int, v: int)
    requires Wrap(u) == Wrap(v)
    ensures Wrap(2 * u) == Wrap(2 * v)
  {
    var k := u / 0x1_0000_0000_0000_0000 - v / 0x1_0000_0000_0000_0000;
    assert u == v + 0x1_0000_0000_0000_0000 * k;
    WrapMultiple(2 * k, 2 * v);
  }

  lemma ShiftMeaning(a: Word, b: Word)
    ensures Wrap(Shl(a, b % 64)) == Wrap(Signed(a) * Pow2(b % 64))
  {
    hide Shl, Wrap;
    ShlModulo(a, b % 64);
    ShlIsProduct(Signed(a), b % 64);
  }

  lemma BinaryMeaning(op: BinOp, a: Word, b: Word)
    ensures IsBinary(Code(op)) && !IsLeaf(Code(op)) && Binary(Code(op), a, b) == Meaning(op, a, b)
  {
    hide And, Or, Xor, Product, Pow2, Shl, TruncatedQuotient, Wrap;
    match op {
      case Mul => MulMeaning(a, b);
      case Plus => SumMeaning(a, b);
      case Minus => SumMeaning(a, b);
      case ShiftLeft => ShiftMeaning(a, b);
      case _ =>
    }
  }

  /** The fixed-size constants read back, zero- or sign-extended. */
  lemma FixedReads(buf: seq<Byte>, cur: nat, t: Tree)
    requires (t.FixedU? || t.FixedS?) && Encodable(t) && Holds(buf, cur, LeafOperands(t))
    ensures ConstantSize(LeafCode(t)) == t.size
    ensures Constant(buf, LeafCode(t), cur) == if t.FixedU? then t.n else Wrap(t.s)
  {
    hide Pow2, LittleEndian, ToLittleEndian;
    var x := if t.FixedU? then t.n else Pattern(t.s, t.size);
    assert Pow2(8 * t.size) == 2 * Pow2(8 * t.size - 1) by { Pow2Step(8 * t.size); }
    LittleEndianRoundTrip(buf, cur, x, t.size);
    Pow2Bytes();
    Pow2Monotone(8 * t.size, 64);
  }

  lemma Pow2Step(n: nat)
    requires n > 0
    ensures Pow2(n) == 2 * Pow2(n - 1)
  {
  }

  lemma LeafReads(env: Env, t: Tree, cur: nat, end: nat)
    requires WfEnv(env) && Encodable(t) && IsLeafTree(t)
    requires Holds(env.buf, cur, LeafOperands(t)) && cur + |LeafOperands(t)| <= end
    ensures IsLeaf(LeafCode(t))
    ensures Leaf(env, LeafCode(t), cur, end) == Some(Decoded(LeafValue(t, env.regs), cur + |LeafOperands(t)|))
  {
    hide Uleb, Sleb, UlebEncode, SlebEncode, LittleEndian, ToLittleEndian, Constant, Pow2, Pattern;
    var buf := env.buf;
    match t {
      case Lit(_) =>
      case FixedU(_, _) => FixedReads(buf, cur, t);
      case FixedS(_, _) => FixedReads(buf, cur, t);
      case ConstU(n) => UlebRoundTrip(buf, cur, end, n);
      case ConstS(s) => SlebRoundTrip(buf, cur, end, s);
      case BaseReg(_, _) => BaseRegReads(env, t, cur, end);
      case BaseRegX(_, _) => BaseRegXReads(env, t, cur, end);
    }
  }

  lemma BaseRegReads(env: Env, t: Tree, cur: nat, end: nat)
    requires WfEnv(env) && Encodable(t) && t.BaseReg?
    requires Holds(env.buf, cur, SlebEncode(t.s)) && cur + |SlebEncode(t.s)| <= end
    ensures Leaf(env, LeafCode(t), cur, end) == Some(Decoded(Wrap(env.regs[t.reg] + t.s), cur + |SlebEncode(t.s)|))
  {
    hide Uleb, Sleb, SlebEncode, Constant, Pow2, Wrap;
    SlebRoundTrip(env.buf, cur, end, t.s);
    WrapSum(env.regs[t.reg], t.s);
  }

  lemma BaseRegXReads(env: Env, t: Tree, cur: nat, end: nat)
    requires WfEnv(env) && Encodable(t) && t.BaseRegX?
    requires Holds(env.buf, cur, LeafOperands(t)) && cur + |LeafOperands(t)| <= end
    ensures Leaf(env, LeafCode(t), cur, end) == Some(Decoded(Wrap(env.regs[t.reg] + t.s), cur + |LeafOperands(t)|))
  {
    hide Uleb, Sleb, UlebEncode, SlebEncode, Constant, Pow2, Wrap;
    HoldsSplit(env.buf, cur, UlebEncode(t.reg), SlebEncode(t.s));
    UlebRoundTrip(env.buf, cur, end, t.reg);
    SlebRoundTrip(env.buf, cur + |UlebEncode(t.reg)|, end, t.s);
    WrapSum(env.regs[t.reg], t.s);
  }

  lemma WrapSum(a: Word, s: int)
    ensures Wrap(a + Wrap(s)) == Wrap(a + s)
  {
  }

  /** A result of running some code: a value on top of an untouched stack, or a failure. */
  ghost predicate Yields(env: Env, cur: nat, end: nat, s: Stack, v: Attempt<Word>, cur': nat, s': Stack)
    requires WfEnv(env) && Wf(s) && Wf(s')
  {
    if v.Done? then
      && s'.sp == s.sp + 1
      && s'.slots[..s.sp] == s.slots[..s.sp]
      && s'.slots[s.sp] == v.value
      && Evaluate(env, cur, end, s) == Evaluate(env, cur', end, s')
    else
      Evaluate(env, cur, end, s) == v
  }

  /** What a tree comes to on the slots a stack has left. */
  function ValueOn(t: Tree, env: Env, s: Stack): Attempt<Word>
    requires WfEnv(env) && Wf(s) && Encodable(t)
  {
    ValueWithin(t, env.regs, SLOTS - s.sp)
  }

  lemma LeafYields(env: Env, t: Tree, cur: nat, end: nat, s: Stack) returns (s': Stack)
    requires WfEnv(env) && Wf(s) && Encodable(t) && IsLeafTree(t)
    requires Holds(env.buf, cur, Compile(t)) && cur + |Compile(t)| <= end
    ensures Wf(s') && Yields(env, cur, end, s, ValueOn(t, env, s), cur + |Compile(t)|, s')
  {
    hide Leaf, LeafCode, LeafOperands, LeafValue;
    HoldsHead(env.buf, cur, Compile(t));
    assert Compile(t)[1..] == LeafOperands(t);
    LeafReads(env, t, cur + 1, end);
    s' := if s.sp < SLOTS then Push(s, LeafValue(t, env.regs)).value else s;
  }

  /** The operator byte after its two operands are on the stack. */
  lemma OperatorYields(env: Env, op: BinOp, cur: nat, end: nat, s: Stack, s2: Stack, a: Word, b: Word)
    returns (s': Stack)
    requires WfEnv(env) && Wf(s) && Wf(s2)
    requires cur < end && ByteAt(env.buf, cur) == Code(op)
    requires s2.sp == s.sp + 2 && s2.slots[..s.sp] == s.slots[..s.sp] && s2.slots[s.sp] == a && s2.slots[s.sp + 1] == b
    ensures Wf(s')
    ensures var v := Meaning(op, a, b);
            if !v.Done? then Evaluate(env, cur, end, s2) == v else
            && s'.sp == s.sp + 1 && s'.slots[..s.sp] == s.slots[..s.sp] && s'.slots[s.sp] == v.value
            && Evaluate(env, cur, end, s2) == Evaluate(env, cur + 1, end, s')
  {
    hide Meaning, Binary, Code;
    BinaryMeaning(op, a, b);
    var v := Meaning(op, a, b);
    s' := if v.Done? then Stack(s2.slots[s.sp := v.value], s.sp + 1) else s;
    assert v.Done? ==> s'.slots[..s.sp] == s2.slots[..s.sp];
    assert ExecOp(env, Code(op), cur + 1, end, s2) == ExecBinary(Code(op), cur + 1, s2);
  }

  lemma UnaryIs(t: Tree, a: Word)
    ensures t.Apply? ==> Unary(if t.f.Neg? then 0x1f else 0x20, a, 0) == UnaryMeaning(t.f, a)
    ensures t.AddConst? ==> Unary(0x23, a, t.n) == Wrap(a + t.n)
  {
  }

  lemma UnaryOp(env: Env, op: Byte, cur: nat, end: nat, s: Stack)
    requires WfEnv(env) && Wf(s) && IsUnary(op)
    ensures ExecOp(env, op, cur, end, s) == Tried(ExecUnary(env, op, cur, end, s))
  {
    hide Uleb, ExecUnary;
  }

  /** A unary operator after its operand is on the stack; `n` and `cur'` are its immediate
      operand, if any, and the cursor after it. */
  lemma UnaryYields(env: Env, op: Byte, n: Word, cur: nat, cur': nat, end: nat, s: Stack, s1: Stack, a: Word)
    returns (s': Stack)
    requires WfEnv(env) && Wf(s) && Wf(s1) && IsUnary(op) && cur < end && ByteAt(env.buf, cur) == op
    requires Decoded(n, cur') == if op == 0x23 then GetUleb(env.buf, cur + 1, end) else Decoded(0, cur + 1)
    requires s1.sp == s.sp + 1 && s1.slots[..s.sp] == s.slots[..s.sp] && s1.slots[s.sp] == a
    ensures Wf(s')
    ensures if s.sp + 2 <= SLOTS then
              && s'.sp == s.sp + 1 && s'.slots[..s.sp] == s.slots[..s.sp] && s'.slots[s.sp] == Unary(op, a, n)
              && Evaluate(env, cur, end, s1) == Evaluate(env, cur', end, s')
            else Evaluate(env, cur, end, s1) == Refused
  {
    hide GetUleb, ExecOp, Unary;
    s' := if s.sp + 2 <= SLOTS then Stack(s1.slots[s.sp := Unary(op, a, n)], s.sp + 1) else s;
    assert s.sp + 2 <= SLOTS ==> s'.slots[..s.sp] == s1.slots[..s.sp];
    UnaryOp(env, op, cur + 1, end, s1);
  }

  /** Running compiled code leaves the tree's value on top of the stack it found, or ends in the
      error or the fault that the tree comes to on the slots that are left. */
  lemma {:induction false} CompiledYields(env: Env, t: Tree, cur: nat, end: nat, s: Stack) returns (s': Stack)
    requires WfEnv(env) && Wf(s) && Encodable(t)
    requires Holds(env.buf, cur, Compile(t)) && cur + |Compile(t)| <= end
    ensures Wf(s') && Yields(env, cur, end, s, ValueOn(t, env, s), cur + |Compile(t)|, s')
    decreases t
  {
    hide Evaluate, UlebEncode, Meaning, UnaryMeaning, LeafCode, LeafOperands, LeafValue, Yields, Holds;
    var buf := env.buf;
    match t {
      case Node(op, l, r) =>
        s' := NodeCase(env, t, op, l, r, cur, end, s);
      case Apply(f, e) =>
        HoldsSplit(buf, cur, Compile(e), [if f.Neg? then 0x1f else 0x20]);
        var s1 := CompiledYields(env, e, cur, end, s);
        s' := ApplyCase(env, t, cur, end, s, s1);
      case AddConst(e, n) =>
        assert Compile(t) == Compile(e) + ([0x23] + UlebEncode(n));
        HoldsSplit(buf, cur, Compile(e), [0x23] + UlebEncode(n));
        var s1 := CompiledYields(env, e, cur, end, s);
        s' := AddConstCase(env, t, cur, end, s, s1);
      case _ =>
        s' := LeafYields(env, t, cur, end, s);
    }
  }

  lemma NodeParts(op: BinOp, l: Tree, r: Tree, regs: seq<Word>, free: nat)
    requires |regs| == COLUMNS && Encodable(l) && Encodable(r)
    ensures var t := Node(op, l, r);
            && Encodable(t)
            && Compile(t) == Compile(l) + Compile(r) + [Code(op)]
            && var a := ValueWithin(l, regs, free);
               if !a.Done? then ValueWithin(t, regs, free) == a else
               && free > 0
               && var b := ValueWithin(r, regs, free - 1);
                  ValueWithin(t, regs, free) == if !b.Done? then b else Meaning(op, a.value, b.value)
  {
  }

  lemma {:induction false} NodeCase(env: Env, t: Tree, op: BinOp, l: Tree, r: Tree, cur: nat, end: nat, s: Stack)
    returns (s': Stack)
    requires WfEnv(env) && Wf(s) && Encodable(t) && t == Node(op, l, r) && Encodable(l) && Encodable(r)
    requires Holds(env.buf, cur, Compile(t)) && cur + |Compile(t)| <= end
    ensures Wf(s') && Yields(env, cur, end, s, ValueOn(t, env, s), cur + |Compile(t)|, s')
    decreases t, 0
  {
    hide Evaluate, Meaning, Code, Compile, ValueWithin, Encodable, Holds;
    NodeParts(op, l, r, env.regs, SLOTS - s.sp);
    var cl, cr := Compile(l), Compile(r);
    HoldsSplit(env.buf, cur, cl + cr, [Code(op)]);
    HoldsSplit(env.buf, cur, cl, cr);
    HoldsHead(env.buf, cur + |cl| + |cr|, [Code(op)]);
    var s1 := CompiledYields(env, l, cur, end, s);
    s' := s;
    var a := ValueOn(l, env, s);
    if a.Done? {
      var s2 := CompiledYields(env, r, cur + |cl|, end, s1);
      var b := ValueOn(r, env, s1);
      if b.Done? {
        assert s2.slots[..s.sp] == s2.slots[..s1.sp][..s.sp];
        assert s2.slots[..s1.sp][s.sp] == s1.slots[..s1.sp][s.sp];
        assert s1.slots[..s.sp] == s1.slots[..s1.sp][..s.sp];
        s' := OperatorYields(env, op, cur + |cl| + |cr|, end, s, s2, a.value, b.value);
      }
    }
  }

  lemma ApplyCase(env: Env, t: Tree, cur: nat, end: nat, s: Stack, s1: Stack) returns (s': Stack)
    requires WfEnv(env) && Wf(s) && Wf(s1) && Encodable(t) && t.Apply? && cur + |Compile(t)| <= end
    requires Holds(env.buf, cur + |Compile(t.e)|, [if t.f.Neg? then 0x1f else 0x20])
    requires Yields(env, cur, end, s, ValueOn(t.e, env, s), cur + |Compile(t.e)|, s1)
    ensures Wf(s') && Yields(env, cur, end, s, ValueOn(t, env, s), cur + |Compile(t)|, s')
  {
    hide Evaluate, Unary, UnaryMeaning, GetUleb;
    var at := cur + |Compile(t.e)|;
    var op := if t.f.Neg? then 0x1f else 0x20;
    HoldsHead(env.buf, at, [op]);
    s' := s;
    var a := ValueOn(t.e, env, s);
    if a.Done? {
      UnaryIs(t, a.value);
      s' := UnaryYields(env, op, 0, at, at + 1, end, s, s1, a.value);
    }
  }

  lemma AddConstCase(env: Env, t: Tree, cur: nat, end: nat, s: Stack, s1: Stack) returns (s': Stack)
    requires WfEnv(env) && Wf(s) && Wf(s1) && Encodable(t) && t.AddConst? && cur + |Compile(t)| <= end
    requires Holds(env.buf, cur + |Compile(t.e)|, [0x23] + UlebEncode(t.n))
    requires Yields(env, cur, end, s, ValueOn(t.e, env, s), cur + |Compile(t.e)|, s1)
    ensures Wf(s') && Yields(env, cur, end, s, ValueOn(t, env, s), cur + |Compile(t)|, s')
  {
    hide Evaluate, Unary, GetUleb, UlebEncode, Holds;
    var at := cur + |Compile(t.e)|;
    HoldsHead(env.buf, at, [0x23] + UlebEncode(t.n));
    assert ([0x23] + UlebEncode(t.n))[1..] == UlebEncode(t.n);
    UlebRoundTrip(env.buf, at + 1, end, t.n);
    s' := s;
    var a := ValueOn(t.e, env, s);
    if a.Done? {
      UnaryIs(t, a.value);
      s' := UnaryYields(env, 0x23, t.n, at, at + 1 + |UlebEncode(t.n)|, end, s, s1, a.value);
    }
  }

  /** Expression compilation is correct: evaluating the stored block of a compiled tree gives what
      the tree comes to on eight slots. If eight slots suffice that is its value, the error of a
      division by zero or the fault of a division that traps; if they do not it is never a value,
      and an error unless a division traps. */
  lemma CompiledComputes(env: Env, t: Tree, ptr: nat)
    requires WfEnv(env) && Encodable(t) && |Compile(t)| < TWO64 && env.base + |env.buf| < TWO64
    requires Holds(env.buf, ptr, UlebEncode(|Compile(t)|) + Compile(t))
    ensures var r := Compute(env, ptr);
            && r == ValueWithin(t, env.regs, 8)
            && (Slots(t) <= 8 ==> r == Value(t, env.regs))
            && (Slots(t) > 8 ==> !r.Done? && (!Traps(t, env.regs) ==> r == Refused))
  {
    hide Uleb, UlebEncode, Value, ValueWithin, Compile, ExecOp, Slots, Encodable, Traps;
    var code := Compile(t);
    HoldsSplit(env.buf, ptr, UlebEncode(|code|), code);
    UlebRoundTrip(env.buf, ptr, ptr + |env.buf| + 1, |code|);
    var start := ptr + |UlebEncode(|code|)|;
    var s' := CompiledYields(env, t, start, start + |code|, Stack(env.junk, 0));
    SlotsSuffice(t, env.regs, SLOTS);
  }

  /** The smallest number divided by -1. */
  function Overflowing(): Tree {
    Node(Div, FixedS(8, -TWO63), FixedS(1, -1))
  }

  /** An input for the fault. */
  lemma DivisionFaults(env: Env, ptr: nat)
    requires WfEnv(env) && env.base + |env.buf| < TWO64
    ensures Encodable(Overflowing()) && |Compile(Overflowing())| < TWO64
    ensures Holds(env.buf, ptr, UlebEncode(|Compile(Overflowing())|) + Compile(Overflowing())) ==>
              Compute(env, ptr) == Faulted
  {
    hide Compute, Holds, UlebEncode, Compile, Value, Slots, Encodable, ValueWithin, Traps;
    OverflowingEncodable();
    OverflowingTraps(env.regs);
    if Holds(env.buf, ptr, UlebEncode(|Compile(Overflowing())|) + Compile(Overflowing())) {
      CompiledComputes(env, Overflowing(), ptr);
    }
  }

  lemma OverflowingEncodable()
    ensures Encodable(Overflowing()) && |Compile(Overflowing())| == 12
  {
    assert Pow2(64) == 2 * Pow2(63) && Pow2(8) == 2 * Pow2(7);
    hide Pow2, ToLittleEndian;
    Pow2Bytes();
  }

  lemma OverflowingTraps(regs: seq<Word>)
    requires |regs| == COLUMNS && Encodable(Overflowing())
    ensures Value(Overflowing(), regs) == Faulted && Slots(Overflowing()) == 2
  {
    hide Pow2;
    var l, r := FixedS(8, -TWO63), FixedS(1, -1);
    assert Value(l, regs) == Done(Wrap(-TWO63)) && Value(r, regs) == Done(Wrap(-1));
  }

  // ----- an expression from practice -----

  lemma {:induction false} NothingLeft(a: nat, n: nat)
    ensures Combine((x, y) => x && y, a, 0, n) == 0
    decreases n
  {
    if n > 0 {
      NothingLeft(a / 2, n - 1);
    }
  }

  /** One low bit of a mask. */
  lemma MaskStep(a: nat, mask: nat, n: nat)
    requires n > 0
    ensures Combine((x, y) => x && y, a, 2 * mask + 1, n) == a % 2 + 2 * Combine((x, y) => x && y, a / 2, mask, n - 1)
  {
  }

  lemma LowFour(a: Word)
    ensures And(a, 15) == a % 16
  {
    hide Combine;
    MaskStep(a, 7, 64);
    MaskStep(a / 2, 3, 63);
    MaskStep(a / 2 / 2, 1, 62);
    MaskStep(a / 2 / 2 / 2, 0, 61);
    NothingLeft(a / 2 / 2 / 2 / 2, 60);
    FourBits(a);
  }

  lemma FourBits(a: nat)
    ensures a % 16 == a % 2 + 2 * (a / 2 % 2) + 4 * (a / 2 / 2 % 2) + 8 * (a / 2 / 2 / 2 % 2)
  {
  }

  /** The CFA of a `.plt` entry: rsp + 8, and another 8 once its second half is reached. */
  function PltTree(): Tree {
    Node(Plus, BaseReg(7, 8), Node(ShiftLeft, Node(Ge, Node(BitAnd, BaseReg(16, 0), Lit(15)), Lit(11)), Lit(3)))
  }

  function PltCfa(regs: seq<Word>): Word
    requires |regs| == COLUMNS
  {
    var rsp: int := regs[7];
    if regs[16] % 16 >= 11 then Wrap(rsp + 16) else Wrap(rsp + 8)
  }

  lemma PltBytes()
    ensures Encodable(PltTree()) && Slots(PltTree()) == 3
    ensures Compile(PltTree()) == [0x77, 0x08, 0x80, 0x00, 0x3f, 0x1a, 0x3b, 0x2a, 0x33, 0x24, 0x22]
  {
    var masked := Node(BitAnd, BaseReg(16, 0), Lit(15));
    var tested := Node(Ge, masked, Lit(11));
    var scaled := Node(ShiftLeft, tested, Lit(3));
    assert Compile(masked) == [0x80, 0x00, 0x3f, 0x1a];
    assert Compile(tested) == [0x80, 0x00, 0x3f, 0x1a, 0x3b, 0x2a];
    assert Compile(scaled) == [0x80, 0x00, 0x3f, 0x1a, 0x3b, 0x2a, 0x33, 0x24];
    assert Compile(BaseReg(7, 8)) == [0x77, 0x08];
  }

  lemma PltValue(regs: seq<Word>)
    requires |regs| == COLUMNS && Encodable(PltTree())
    ensures Value(PltTree(), regs) == Done(PltCfa(regs))
  {
    hide And, Meaning;
    var masked := Node(BitAnd, BaseReg(16, 0), Lit(15));
    var tested := Node(Ge, masked, Lit(11));
    var scaled := Node(ShiftLeft, tested, Lit(3));
    var bit: Word := if regs[16] % 16 >= 11 then 1 else 0;
    PltMeaning(regs[16], regs[7], bit);
    assert Value(BaseReg(16, 0), regs) == Done(regs[16]);
    assert Value(masked, regs) == Done(regs[16] % 16);
    assert Value(tested, regs) == Done(bit);
    assert Value(scaled, regs) == Done(8 * bit);
    var rsp: int := regs[7];
    assert Value(BaseReg(7, 8), regs) == Done(Wrap(rsp + 8));
  }

  lemma PltMeaning(pc: Word, rsp: Word, bit: Word)
    requires bit == if pc % 16 >= 11 then 1 else 0
    ensures Meaning(BitAnd, pc, 15) == Done(pc % 16)
    ensures Meaning(Ge, pc % 16, 11) == Done(bit)
    ensures Meaning(ShiftLeft, bit, 3) == Done(8 * bit)
    ensures Meaning(Plus, Wrap(rsp + 8), 8 * bit) == Done(if bit == 1 then Wrap(rsp + 16) else Wrap(rsp + 8))
  {
    hide And, Pow2, Wrap;
    LowFour(pc);
    SmallShift(bit);
    PltSum(rsp, bit);
  }

  lemma SmallShift(bit: Word)
    requires bit <= 1
    ensures Meaning(ShiftLeft, bit, 3) == Done(8 * bit)
  {
    assert Pow2(3) == 8;
  }

  lemma PltSum(rsp: Word, bit: Word)
    requires bit <= 1
    ensures Meaning(Plus, Wrap(rsp + 8), 8 * bit) == Done(if bit == 1 then Wrap(rsp + 16) else Wrap(rsp + 8))
  {
    hide Wrap, Signed;
    var sp: int, add: Word := rsp, 8 * bit;
    SumMeaning(Wrap(rsp + 8), add);
    WrapSum(add, sp + 8);
    assert Wrap(Wrap(sp + 8) + add) == Wrap(sp + 8 + add);
  }

  /** Twelve bytes that linkers write, computed for every frame. */
  lemma PltComputes(env: Env, ptr: nat)
    requires WfEnv(env) && env.base + |env.buf| < TWO64
    requires Holds(env.buf, ptr, [11, 0x77, 0x08, 0x80, 0x00, 0x3f, 0x1a, 0x3b, 0x2a, 0x33, 0x24, 0x22])
    ensures Compute(env, ptr) == Done(PltCfa(env.regs))
  {
    hide Compute, Compile, Value, Slots, Encodable, Traps, ValueWithin, Holds;
    PltBytes();
    PltValue(env.regs);
    assert UlebEncode(11) == [11];
    assert [11] + Compile(PltTree()) == [11, 0x77, 0x08, 0x80, 0x00, 0x3f, 0x1a, 0x3b, 0x2a, 0x33, 0x24, 0x22];
    CompiledComputes(env, PltTree(), ptr);
  }
}
