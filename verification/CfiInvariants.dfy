/** What every run of the interpreter keeps, on every byte string: remembered rows, the CIE's
    rules, the place of stored expressions, and independence of the bytes outside the program. */
module CfiInvariants {
  import opened Words
  import opened Leb128
  import opened EncodedPointer
  import opened CfiState
  import opened CfiInterpreter

  // ----- remembered rows -----

  /** An accepted instruction writes neither a row below the depth it leaves nor the CIE's
      rules, and moves the depth by at most one. */
  lemma StepKeepsLowerRows(cx: Context, cur: nat, end: nat, st: State)
    requires Wf(st) && Exec(cx, cur, end, st).ok
    ensures var s := Exec(cx, cur, end, st);
            && s.st.rows[..s.st.depth] == st.rows[..s.st.depth]
            && s.st.cieRegs == st.cieRegs
            && st.depth - 1 <= s.st.depth <= st.depth + 1
  {
    hide Uleb, Sleb, LittleEndian, Product, ExecExtended;
    var b := ByteAt(cx.sec.buf, cur);
    if b / 64 == 0 {
      ExtendedKeepsLowerRows(cx, b, cur + 1, end, st);
    }
  }

  lemma ExtendedKeepsLowerRows(cx: Context, op: Byte, cur: nat, end: nat, st: State)
    requires Wf(st) && ExecExtended(cx, op, cur, end, st).ok
    ensures var s := ExecExtended(cx, op, cur, end, st);
            && s.st.rows[..s.st.depth] == st.rows[..s.st.depth]
            && s.st.cieRegs == st.cieRegs
            && st.depth - 1 <= s.st.depth <= st.depth + 1
  {
    hide GetUleb, GetSleb, LittleEndian, Product, Wrap, ByteAt, ReadPointer;
  }

  /** `n` accepted instructions from here, none of which leaves the depth at `d` or below. */
  ghost predicate StaysAbove(cx: Context, cur: nat, end: nat, st: State, n: nat, d: nat)
    decreases n
  {
    && Wf(st)
    && st.depth > d
    && (n > 0 ==>
          && cur < end
          && var s := Exec(cx, cur, end, st);
             s.ok && s.cur <= end && StaysAbove(cx, s.cur, end, s.st, n - 1, d))
  }

  /** The cursor and state after those instructions. */
  ghost function After(cx: Context, cur: nat, end: nat, st: State, n: nat, d: nat): (r: Step)
    requires StaysAbove(cx, cur, end, st, n, d)
    ensures r.ok && Wf(r.st) && r.st.depth > d && (cur <= end ==> r.cur <= end)
    decreases n
  {
    if n == 0 then Step(cur, st, true) else
      var s := Exec(cx, cur, end, st);
      After(cx, s.cur, end, s.st, n - 1, d)
  }

  lemma {:induction false} AfterKeepsRows(cx: Context, cur: nat, end: nat, st: State, n: nat, d: nat)
    requires StaysAbove(cx, cur, end, st, n, d)
    ensures var r := After(cx, cur, end, st, n, d);
            r.st.rows[..d + 1] == st.rows[..d + 1] && r.st.cieRegs == st.cieRegs
    decreases n
  {
    hide Exec;
    if n > 0 {
      var s := Exec(cx, cur, end, st);
      StepKeepsLowerRows(cx, cur, end, st);
      AfterKeepsRows(cx, s.cur, end, s.st, n - 1, d);
      var low := s.st.depth;
      assert s.st.rows[..d + 1] == s.st.rows[..low][..d + 1];
      assert st.rows[..d + 1] == st.rows[..low][..d + 1];
    }
  }

  lemma {:induction false} RunPassesThrough(cx: Context, cur: nat, end: nat, st: State, n: nat, d: nat)
    requires StaysAbove(cx, cur, end, st, n, d)
    ensures var r := After(cx, cur, end, st, n, d);
            Run(cx, cur, end, 0, st) == Run(cx, r.cur, end, 0, r.st)
    decreases n
  {
    hide Exec;
    if n > 0 {
      var s := Exec(cx, cur, end, st);
      RunPassesThrough(cx, s.cur, end, s.st, n - 1, d);
    }
  }

  /** The segment remember; P; restore, with P of `n` instructions that never pops below the
      row it started with. */
  ghost predicate Bracket(cx: Context, cur: nat, end: nat, st: State, n: nat) {
    && Wf(st) && cur < end && ByteAt(cx.sec.buf, cur) == CFA_REMEMBER_STATE
    && var open := Exec(cx, cur, end, st);
       && open.ok && open.cur <= end
       && StaysAbove(cx, open.cur, end, open.st, n, st.depth)
       && var close := After(cx, open.cur, end, open.st, n, st.depth);
          && close.st.depth == st.depth + 1
          && close.cur < end && ByteAt(cx.sec.buf, close.cur) == CFA_RESTORE_STATE
  }

  ghost function BracketEnd(cx: Context, cur: nat, end: nat, st: State, n: nat): Step
    requires Bracket(cx, cur, end, st, n)
  {
    var open := Exec(cx, cur, end, st);
    var close := After(cx, open.cur, end, open.st, n, st.depth);
    Exec(cx, close.cur, end, close.st)
  }

  lemma ExecRemember(cx: Context, cur: nat, end: nat, st: State)
    requires Wf(st) && ByteAt(cx.sec.buf, cur) == CFA_REMEMBER_STATE
    ensures Exec(cx, cur, end, st) == Remember(st, cur + 1)
  {
    hide Uleb, Sleb;
  }

  lemma ExecRecall(cx: Context, cur: nat, end: nat, st: State)
    requires Wf(st) && ByteAt(cx.sec.buf, cur) == CFA_RESTORE_STATE
    ensures Exec(cx, cur, end, st) == Recall(st, cur + 1)
  {
    hide Uleb, Sleb;
  }

  /** Remember and restore bracket what lies between: the row, the rows under it, the depth
      and the CIE's rules are as they were, and the run goes on from there. */
  lemma BracketRestores(cx: Context, cur: nat, end: nat, st: State, n: nat)
    requires Bracket(cx, cur, end, st, n)
    ensures var r := BracketEnd(cx, cur, end, st, n);
            && r.ok && Wf(r.st)
            && r.st.depth == st.depth
            && Current(r.st) == Current(st)
            && r.st.rows[..st.depth] == st.rows[..st.depth]
            && r.st.cieRegs == st.cieRegs
            && (r.cur <= end ==> Run(cx, cur, end, 0, st) == Run(cx, r.cur, end, 0, r.st))
  {
    hide Exec;
    var d := st.depth;
    var open := Exec(cx, cur, end, st);
    var close := After(cx, open.cur, end, open.st, n, d);
    ExecRemember(cx, cur, end, st);
    AfterKeepsRows(cx, open.cur, end, open.st, n, d);
    RunPassesThrough(cx, open.cur, end, open.st, n, d);
    ExecRecall(cx, close.cur, end, close.st);
    assert open.st.rows[..d + 1] == st.rows[..d + 1];
    assert close.st.rows[..d + 1][d] == st.rows[..d + 1][d];
    assert close.st.rows[..d + 1][..d] == st.rows[..d + 1][..d];
  }

  // ----- stored expressions -----

  /** The bytes of one program. */
  datatype Region = Region(lo: nat, hi: nat)

  /** The length prefix at `p` ends before the bound. */
  predicate Terminated(buf: seq<Byte>, p: nat, hi: nat) {
    p < hi && GetUleb(buf, p, hi).cur <= hi && ByteAt(buf, GetUleb(buf, p, hi).cur - 1) < 128
  }

  /** The expression at `p` lies in the region, and reading its length again with any looser
      bound gives the length that was checked. */
  ghost predicate Inside(buf: seq<Byte>, p: nat, r: Region) {
    && r.lo <= p < r.hi
    && GetUleb(buf, p, r.hi).cur + GetUleb(buf, p, r.hi).value <= r.hi
    && forall bound: nat :: bound >= r.hi ==> GetUleb(buf, p, bound) == GetUleb(buf, p, r.hi)
  }

  lemma InsideIfTerminated(buf: seq<Byte>, p: nat, r: Region)
    requires r.lo <= p && Terminated(buf, p, r.hi)
    requires GetUleb(buf, p, r.hi).cur + GetUleb(buf, p, r.hi).value <= r.hi
    ensures Inside(buf, p, r)
  {
    forall bound: nat | bound >= r.hi
      ensures GetUleb(buf, p, bound) == GetUleb(buf, p, r.hi)
    {
      UlebBoundIrrelevant(buf, p, r.hi, bound, 0, 0);
    }
  }

  /** A prefix that runs into the bound is read differently with a looser one. */
  lemma {:induction false} UnterminatedReadsOn(buf: seq<Byte>, cur: nat, hi: nat, shift: nat, value: nat)
    requires Fits(value, shift) && cur < hi && Uleb(buf, cur, hi, shift, value).cur <= hi
    requires ByteAt(buf, Uleb(buf, cur, hi, shift, value).cur - 1) >= 128
    ensures Uleb(buf, cur, hi, shift, value).cur == hi
    ensures Uleb(buf, cur, hi + 1, shift, value).cur > hi
    decreases hi - cur
  {
    var b := ByteAt(buf, cur);
    PayloadFits(b, shift, value);
    if cur + 1 < hi {
      UnterminatedReadsOn(buf, cur + 1, hi, shift + 7, value + Payload(b, shift));
    }
  }

  ghost predicate CfaStored(buf: seq<Byte>, cfa: Cfa, r: Region) {
    cfa.CfaExpr? ==> Inside(buf, cfa.ptr, r)
  }

  ghost predicate ItemStored(buf: seq<Byte>, item: Item, r: Region) {
    item.Expr? || item.ValExpr? ==>
      r.lo <= item.ptr <= r.hi && (Terminated(buf, item.ptr, r.hi) <==> Inside(buf, item.ptr, r))
  }

  /** Stored in the CIE's program or in the FDE's. */
  ghost predicate CfaGood(buf: seq<Byte>, cfa: Cfa, a: Region, b: Region) {
    CfaStored(buf, cfa, a) || CfaStored(buf, cfa, b)
  }

  ghost predicate ItemGood(buf: seq<Byte>, item: Item, a: Region, b: Region) {
    ItemStored(buf, item, a) || ItemStored(buf, item, b)
  }

  ghost predicate ItemsGood(buf: seq<Byte>, items: seq<Item>, a: Region, b: Region) {
    forall i :: 0 <= i < |items| ==> ItemGood(buf, items[i], a, b)
  }

  ghost predicate RowGood(buf: seq<Byte>, row: Row, a: Region, b: Region) {
    CfaGood(buf, row.cfa, a, b) && ItemsGood(buf, row.regs, a, b)
  }

  ghost predicate StateGood(buf: seq<Byte>, st: State, a: Region, b: Region)
    requires Wf(st)
  {
    && (forall k :: 0 <= k <= st.depth ==> RowGood(buf, st.rows[k], a, b))
    && ItemsGood(buf, st.cieRegs, a, b)
  }

  lemma SetRuleGood(buf: seq<Byte>, st: State, reg: Word, item: Item, a: Region, b: Region)
    requires Wf(st) && StateGood(buf, st, a, b) && ItemGood(buf, item, a, b)
    ensures StateGood(buf, SetRule(st, reg, item), a, b)
  {
    hide ItemGood, CfaGood;
    if reg < COLUMNS {
      var row := Current(st);
      assert RowGood(buf, row, a, b);
      assert RowGood(buf, row.(regs := row.regs[reg := item]), a, b);
    }
  }

  lemma RestoreRuleGood(buf: seq<Byte>, st: State, reg: Word, a: Region, b: Region)
    requires Wf(st) && StateGood(buf, st, a, b)
    ensures StateGood(buf, RestoreRule(st, reg), a, b)
  {
    hide ItemGood, CfaGood;
    if reg < COLUMNS {
      SetRuleGood(buf, st, reg, st.cieRegs[reg], a, b);
    }
  }

  lemma SetCfaGood(buf: seq<Byte>, st: State, cfa: Cfa, a: Region, b: Region)
    requires Wf(st) && StateGood(buf, st, a, b) && CfaGood(buf, cfa, a, b)
    ensures StateGood(buf, SetCfa(st, cfa), a, b)
  {
    hide ItemGood, CfaGood;
    assert RowGood(buf, Current(st), a, b);
  }

  lemma ExprRuleGood(buf: seq<Byte>, cur: nat, end: nat, st: State, value: bool, a: Region, lo: nat)
    requires Wf(st) && StateGood(buf, st, a, Region(lo, end)) && lo <= cur
    requires ExprRule(buf, cur, end, st, value).cur <= end
    ensures StateGood(buf, ExprRule(buf, cur, end, st, value).st, a, Region(lo, end))
  {
    hide Uleb, ItemsGood, RowGood;
    var reg := GetUleb(buf, cur, end);
    var len := GetUleb(buf, reg.cur, end);
    var b := Region(lo, end);
    if (len.cur > end || end - len.cur >= len.value) && reg.value < COLUMNS {
      var item := if value then ValExpr(reg.cur) else Expr(reg.cur);
      StoredHere(buf, reg.cur, b);
      assert ItemStored(buf, item, b);
      SetRuleGood(buf, st, reg.value, item, a, b);
    }
  }

  lemma StoredHere(buf: seq<Byte>, p: nat, r: Region)
    requires r.lo <= p <= r.hi
    requires GetUleb(buf, p, r.hi).cur + GetUleb(buf, p, r.hi).value <= r.hi
    ensures Terminated(buf, p, r.hi) <==> Inside(buf, p, r)
  {
    if Terminated(buf, p, r.hi) {
      InsideIfTerminated(buf, p, r);
    } else if p < r.hi {
      UnterminatedReadsOn(buf, p, r.hi, 0, 0);
      assert GetUleb(buf, p, r.hi + 1).cur > r.hi;
    }
  }

  lemma DefCfaExpressionGood(buf: seq<Byte>, cur: nat, end: nat, st: State, a: Region, lo: nat)
    requires Wf(st) && StateGood(buf, st, a, Region(lo, end)) && lo <= cur < end
    ensures StateGood(buf, DefCfaExpression(buf, cur, end, st).st, a, Region(lo, end))
  {
    var len := GetUleb(buf, cur, end);
    if len.cur < end && end - len.cur >= len.value {
      StopsBeforeEnd(buf, cur, end, 0, 0);
      InsideIfTerminated(buf, cur, Region(lo, end));
      SetCfaGood(buf, st, CfaExpr(cur), a, Region(lo, end));
    }
  }

  lemma {:induction false} StopsBeforeEnd(buf: seq<Byte>, cur: nat, end: nat, shift: nat, value: nat)
    requires Fits(value, shift) && cur < end && Uleb(buf, cur, end, shift, value).cur < end
    ensures ByteAt(buf, Uleb(buf, cur, end, shift, value).cur - 1) < 128
    decreases end - cur
  {
    var b := ByteAt(buf, cur);
    if b >= 128 {
      PayloadFits(b, shift, value);
      StopsBeforeEnd(buf, cur + 1, end, shift + 7, value + Payload(b, shift));
    }
  }

  lemma RememberGood(buf: seq<Byte>, st: State, cur: nat, a: Region, b: Region)
    requires Wf(st) && StateGood(buf, st, a, b) && Remember(st, cur).ok
    ensures StateGood(buf, Remember(st, cur).st, a, b)
  {
    hide RowGood, ItemsGood;
    assert RowGood(buf, st.rows[st.depth], a, b);
  }

  /** An instruction whose opcode is a whole byte keeps every stored expression good. */
  lemma ExtendedKeepsGood(cx: Context, op: nat, cur: nat, end: nat, st: State, a: Region, lo: nat)
    requires Wf(st) && StateGood(cx.sec.buf, st, a, Region(lo, end)) && lo <= cur <= end
    requires var s := ExecExtended(cx, op, cur, end, st); s.ok && s.cur <= end
    requires op != CFA_DEF_CFA_EXPRESSION || cur < end
    ensures StateGood(cx.sec.buf, ExecExtended(cx, op, cur, end, st).st, a, Region(lo, end))
  {
    hide Uleb, Sleb, LittleEndian, Product, ItemsGood, RowGood, Inside, Terminated, SetRule, WithRow;
    var buf := cx.sec.buf;
    var b := Region(lo, end);
    var s := ExecExtended(cx, op, cur, end, st);
    if op == CFA_EXPRESSION || op == CFA_VAL_EXPRESSION {
      ExprRuleGood(buf, cur, end, st, op == CFA_VAL_EXPRESSION, a, lo);
    } else if op == CFA_DEF_CFA_EXPRESSION {
      DefCfaExpressionGood(buf, cur, end, st, a, lo);
    } else if op == CFA_REMEMBER_STATE {
      RememberGood(buf, st, cur, a, b);
    } else if op == CFA_RESTORE_EXTENDED {
      RestoreRuleGood(buf, st, GetUleb(buf, cur, end).value, a, b);
    } else if IsPlainRuleOp(op) {
      PlainRuleGood(cx, op, cur, end, st, a, b);
    } else if IsCfaOp(op) {
      PlainCfaGood(cx, op, cur, end, st, a, b);
    } else {
      OtherKeepsRows(cx, op, cur, end, st);
    }
  }

  lemma PlainRuleGood(cx: Context, op: nat, cur: nat, end: nat, st: State, a: Region, b: Region)
    requires Wf(st) && StateGood(cx.sec.buf, st, a, b)
    requires IsPlainRuleOp(op)
    ensures StateGood(cx.sec.buf, ExecExtended(cx, op, cur, end, st).st, a, b)
  {
    hide Uleb, Sleb, ItemsGood, RowGood, Inside, Terminated, SetRule, StateGood, Product;
    var buf := cx.sec.buf;
    var reg := GetUleb(buf, cur, end);
    var n := GetUleb(buf, reg.cur, end);
    var s := GetSleb(buf, reg.cur, end);
    match op {
      case CFA_OFFSET_EXTENDED => SetRuleGood(buf, st, reg.value, Memory(Factored(n.value, st.dataAlign)), a, b);
      case CFA_VAL_OFFSET => SetRuleGood(buf, st, reg.value, Value(Factored(n.value, st.dataAlign)), a, b);
      case CFA_OFFSET_EXTENDED_SF => SetRuleGood(buf, st, reg.value, Memory(Factored(s.value, st.dataAlign)), a, b);
      case CFA_VAL_OFFSET_SF => SetRuleGood(buf, st, reg.value, Value(Factored(s.value, st.dataAlign)), a, b);
      case CFA_UNDEFINED => SetRuleGood(buf, st, reg.value, Nowhere, a, b);
      case CFA_SAME_VALUE => SetRuleGood(buf, st, reg.value, Same, a, b);
      case CFA_REGISTER => SetRuleGood(buf, st, reg.value, Register(n.value), a, b);
      case _ => SetRuleGood(buf, st, reg.value, Memory(Negated(n.value)), a, b);
    }
  }

  lemma PlainCfaGood(cx: Context, op: nat, cur: nat, end: nat, st: State, a: Region, b: Region)
    requires Wf(st) && StateGood(cx.sec.buf, st, a, b)
    requires IsCfaOp(op) && op != CFA_DEF_CFA_EXPRESSION
    ensures StateGood(cx.sec.buf, ExecExtended(cx, op, cur, end, st).st, a, b)
  {
    hide Uleb, Sleb, ItemsGood, RowGood, Inside, SetCfa, StateGood, Product;
    var buf := cx.sec.buf;
    forall reg: Word, off: Word
      ensures StateGood(buf, SetCfa(st, RegOff(reg, off)), a, b)
    {
      SetCfaGood(buf, st, RegOff(reg, off), a, b);
    }
  }

  lemma OtherKeepsRows(cx: Context, op: nat, cur: nat, end: nat, st: State)
    requires Wf(st)
    requires !IsRuleOp(op) && !IsCfaOp(op) && op != CFA_REMEMBER_STATE
    requires ExecExtended(cx, op, cur, end, st).ok
    ensures var s := ExecExtended(cx, op, cur, end, st);
            s.st.rows == st.rows && s.st.depth <= st.depth && s.st.cieRegs == st.cieRegs
  {
    hide Uleb, LittleEndian, Product;
  }

  /** Every accepted instruction keeps every stored expression good. */
  lemma StepKeepsGood(cx: Context, cur: nat, end: nat, st: State, a: Region, lo: nat)
    requires Wf(st) && StateGood(cx.sec.buf, st, a, Region(lo, end)) && lo <= cur < end
    requires var s := Exec(cx, cur, end, st); s.ok && s.cur <= end
    ensures StateGood(cx.sec.buf, Exec(cx, cur, end, st).st, a, Region(lo, end))
  {
    hide Uleb, Sleb, ExecExtended, Product, ItemsGood, RowGood, Inside, Terminated, SetRule, WithRow;
    var buf := cx.sec.buf;
    var byte := ByteAt(buf, cur);
    var low := byte % 64;
    match byte / 64 {
      case 0 =>
        if low == CFA_DEF_CFA_EXPRESSION && cur + 1 == end {
          LateDefCfaExpression(cx, end, st);
        } else {
          ExtendedKeepsGood(cx, low, cur + 1, end, st, a, lo);
        }
      case 1 =>
      case 2 =>
        SetRuleGood(buf, st, low, Memory(Factored(GetUleb(buf, cur + 1, end).value, st.dataAlign)), a, Region(lo, end));
      case _ =>
        RestoreRuleGood(buf, st, low, a, Region(lo, end));
    }
  }

  lemma LateDefCfaExpression(cx: Context, end: nat, st: State)
    requires Wf(st)
    ensures ExecExtended(cx, CFA_DEF_CFA_EXPRESSION, end, end, st).st == st
  {
    hide Uleb;
  }

  /** After any accepted run that did not stray every CFA expression of a live row lies inside the program bytes
      and re-reads as it was checked, and so does every register expression exactly when its
      length prefix ends before the program does. */
  lemma {:induction false} RunKeepsGood(cx: Context, lo: nat, cur: nat, end: nat, target: Word, st: State, a: Region)
    requires Wf(st) && StateGood(cx.sec.buf, st, a, Region(lo, end)) && lo <= cur
    requires var r := Run(cx, cur, end, target, st); r.ok && !r.strayed
    ensures StateGood(cx.sec.buf, Run(cx, cur, end, target, st).st, a, Region(lo, end))
    decreases end - cur
  {
    hide Exec, StateGood;
    if cur < end {
      var s := Exec(cx, cur, end, st);
      StepKeepsGood(cx, cur, end, st, a, lo);
      if !(target != 0 && target < s.st.loc) {
        RunKeepsGood(cx, lo, s.cur, end, target, s.st, a);
      }
    }
  }

  /** The exception is real: an accepted program can store a register expression whose length
      is not the one that was checked. */
  lemma UnterminatedExpression(sec: Section)
    requires sec.buf == [0x10, 0x03, 0x80, 0x05]
    ensures var r := RunProgram(Context(sec, 0), 0, 3, 0, Cleared());
            && r.ok && !r.strayed && Current(r.st).regs[3] == Expr(2)
            && GetUleb(sec.buf, 2, 3).value == 0
            && GetUleb(sec.buf, 2, |sec.buf|).value == 640
  {
    var cx := Context(sec, 0);
    var st := Cleared();
    assert GetUleb(sec.buf, 1, 3) == Decoded(3, 2);
    assert Uleb(sec.buf, 3, 3, 7, 0) == Decoded(0, 3);
    assert GetUleb(sec.buf, 2, 3) == Decoded(0, 3);
    assert Shl(5, 7) == 640 by { ShlSeven(5, 0); }
    assert Uleb(sec.buf, 3, 4, 7, 0) == Decoded(640, 4);
    assert GetUleb(sec.buf, 2, 4) == Decoded(640, 4);
    var s := Exec(cx, 0, 3, st);
    assert s == ExprRule(sec.buf, 1, 3, st, false);
    assert Run(cx, 3, 3, 0, s.st) == Outcome(true, false, s.st);
  }

  // ----- a cursor that leaves the program -----

  /** The end of the program is not at the very end of the address space. */
  predicate HasRoom(cx: Context, end: nat) {
    cx.sec.base + end + 8 < TWO64
  }

  /** An expression rule for an existing column whose length prefix is flagged as too long, with a
      value that takes the cursor round the address space. */
  predicate FlaggedExpression(cx: Context, cur: nat, end: nat) {
    var reg := GetUleb(cx.sec.buf, cur + 1, end);
    var len := GetUleb(cx.sec.buf, reg.cur, end);
    && (ByteAt(cx.sec.buf, cur) == CFA_EXPRESSION || ByteAt(cx.sec.buf, cur) == CFA_VAL_EXPRESSION)
    && reg.value < COLUMNS
    && len.cur > end && cx.sec.base + len.cur + len.value >= TWO64
  }

  /** Every cursor but that of an expression rule stays near the end. */
  lemma OtherCursors(cx: Context, op: nat, cur: nat, end: nat, st: State)
    requires Wf(st) && cur <= end && op != CFA_EXPRESSION && op != CFA_VAL_EXPRESSION
    requires ExecExtended(cx, op, cur, end, st).ok
    ensures ExecExtended(cx, op, cur, end, st).cur <= end + 8
  {
    hide Uleb, Sleb, LittleEndian, Product, SetRule, SetCfa, RestoreRule, Wrap;
  }

  /** The only accepted instruction after which the code does not notice that its cursor is outside
      the program is a flagged expression rule. */
  lemma StraysExactly(cx: Context, cur: nat, end: nat, st: State)
    requires Wf(st) && cur < end && HasRoom(cx, end) && Exec(cx, cur, end, st).ok
    ensures Strays(cx, Exec(cx, cur, end, st).cur, end) <==> FlaggedExpression(cx, cur, end)
  {
    hide Uleb, Sleb, Product, SetRule, RestoreRule, ExecExtended;
    var b := ByteAt(cx.sec.buf, cur);
    if b == CFA_EXPRESSION || b == CFA_VAL_EXPRESSION {
      ExprCursor(cx, cur, end, st);
    } else if b / 64 == 0 {
      OtherCursors(cx, b % 64, cur + 1, end, st);
    }
  }

  lemma ExprCursor(cx: Context, cur: nat, end: nat, st: State)
    requires Wf(st) && cur < end && HasRoom(cx, end)
    requires ByteAt(cx.sec.buf, cur) == CFA_EXPRESSION || ByteAt(cx.sec.buf, cur) == CFA_VAL_EXPRESSION
    ensures Strays(cx, Exec(cx, cur, end, st).cur, end) <==> FlaggedExpression(cx, cur, end)
  {
    hide Uleb, SetRule;
    var value := ByteAt(cx.sec.buf, cur) == CFA_VAL_EXPRESSION;
    assert Exec(cx, cur, end, st) == ExprRule(cx.sec.buf, cur + 1, end, st, value);
  }

  /** The run comes to such an instruction. */
  ghost predicate MeetsFlagged(cx: Context, cur: nat, end: nat, target: Word, st: State)
    requires Wf(st)
    decreases end - cur
  {
    && cur < end
    && var s := Exec(cx, cur, end, st);
       && s.ok
       && (|| FlaggedExpression(cx, cur, end)
           || (s.cur <= end && !(target != 0 && target < s.st.loc) && MeetsFlagged(cx, s.cur, end, target, s.st)))
  }

  /** A run strays if and only if it comes to a flagged expression rule. */
  lemma {:induction false} RunStrays(cx: Context, cur: nat, end: nat, target: Word, st: State)
    requires Wf(st) && HasRoom(cx, end)
    ensures Run(cx, cur, end, target, st).strayed <==> MeetsFlagged(cx, cur, end, target, st)
    decreases end - cur
  {
    hide Exec, FlaggedExpression, Wrap;
    if cur < end && Exec(cx, cur, end, st).ok {
      var s := Exec(cx, cur, end, st);
      StraysExactly(cx, cur, end, st);
      if s.cur <= end && !(target != 0 && target < s.st.loc) {
        RunStrays(cx, s.cur, end, target, s.st);
      }
    }
  }

  /** Bytes without payload are skipped. */
  lemma {:induction false} SkipsEmpty(buf: seq<Byte>, cur: nat, end: nat, shift: nat, n: nat)
    requires cur + n < end && shift + 7 * n < 64
    requires forall i: nat :: cur <= i < cur + n ==> ByteAt(buf, i) == 128
    ensures Uleb(buf, cur, end, shift, 0) == Uleb(buf, cur + n, end, shift + 7 * n, 0)
    decreases n
  {
    if n > 0 {
      assert ByteAt(buf, cur) == 128;
      assert Payload(128, shift) == 0 by { ShlAdd(0, 0, shift); }
      assert !Overflows(128, shift);
      SkipsEmpty(buf, cur + 1, end, shift + 7, n - 1);
    }
  }

  /** Twelve bytes, mapped where the kernel maps them, that the code does not reject although its
      cursor has left them. */
  lemma StrayingProgram(sec: Section)
    requires sec.buf == [0x10, 0x03, 0x80, 0x80, 0x80, 0x80, 0x80, 0x80, 0x80, 0x80, 0xc0, 0x02]
    requires sec.base == 0xffff_c900_0000_0000
    ensures GetUleb(sec.buf, 2, 12) == Decoded(0x4000_0000_0000_0000, 13)
    ensures RunProgram(Context(sec, 0), 0, 12, 0, Cleared()).strayed
  {
    var cx := Context(sec, 0);
    assert GetUleb(sec.buf, 1, 12) == Decoded(3, 2);
    LongPrefix(sec.buf);
    assert FlaggedExpression(cx, 0, 12);
    RunStrays(cx, 0, 12, 0, Cleared());
    assert Exec(cx, 0, 12, Cleared()) == ExprRule(sec.buf, 1, 12, Cleared(), false);
  }

  lemma LongPrefix(buf: seq<Byte>)
    requires |buf| == 12 && (forall i: nat :: 2 <= i < 10 ==> ByteAt(buf, i) == 128)
    requires buf[10] == 0xc0 && buf[11] == 0x02
    ensures GetUleb(buf, 2, 12) == Decoded(0x4000_0000_0000_0000, 13)
  {
    SkipsEmpty(buf, 2, 12, 0, 8);
    assert Shl(0x40, 56) == 0x4000_0000_0000_0000 by { TopBit(); }
    assert Pow2(1) == 2;
    assert Uleb(buf, 11, 12, 63, 0x4000_0000_0000_0000) == Decoded(0x4000_0000_0000_0000, 13) by { TopBit(); }
  }

  lemma TopBit()
    ensures Shl(0x40, 56) == 0x4000_0000_0000_0000 && Pow2(63) == TWO63
  {
    assert Pow2(6) == 0x40;
    hide Pow2, Shl;
    ShlPow2(6, 56);
    Pow2Bytes();
    Pow2Doubles(63);
    Pow2Doubles(62);
  }

  lemma Pow2Doubles(n: nat)
    ensures Pow2(n + 1) == 2 * Pow2(n)
  {
  }

  // ----- bytes outside the program -----

  ghost predicate Agree(a: seq<Byte>, b: seq<Byte>, lo: nat, hi: nat) {
    forall i: nat :: lo <= i < hi ==> ByteAt(a, i) == ByteAt(b, i)
  }

  lemma {:induction false} UlebLocal(a: seq<Byte>, b: seq<Byte>, cur: nat, end: nat, shift: nat, value: nat)
    requires Fits(value, shift) && Agree(a, b, cur, end)
    ensures Uleb(a, cur, end, shift, value) == Uleb(b, cur, end, shift, value)
    decreases end - cur
  {
    if cur < end && ByteAt(a, cur) >= 128 && !Overflows(ByteAt(a, cur), shift) {
      PayloadFits(ByteAt(a, cur), shift, value);
      UlebLocal(a, b, cur + 1, end, shift + 7, value + Payload(ByteAt(a, cur), shift));
    }
  }

  lemma {:induction false} SlebLocal(a: seq<Byte>, b: seq<Byte>, cur: nat, end: nat, shift: nat, value: nat)
    requires Fits(value, shift) && Agree(a, b, cur, end)
    ensures Sleb(a, cur, end, shift, value) == Sleb(b, cur, end, shift, value)
    decreases end - cur
  {
    if cur < end && ByteAt(a, cur) >= 128 && !Overflows(ByteAt(a, cur), shift) {
      PayloadFits(ByteAt(a, cur), shift, value);
      SlebLocal(a, b, cur + 1, end, shift + 7, value + Payload(ByteAt(a, cur), shift));
    }
  }

  lemma {:induction false} LittleEndianLocal(a: seq<Byte>, b: seq<Byte>, pos: nat, n: nat)
    requires Agree(a, b, pos, pos + n)
    ensures LittleEndian(a, pos, n) == LittleEndian(b, pos, n)
    decreases n
  {
    if n > 0 {
      LittleEndianLocal(a, b, pos + 1, n - 1);
    }
  }

  lemma OperandsLocal(a: seq<Byte>, b: seq<Byte>, cur: nat, end: nat)
    requires Agree(a, b, cur, end)
    ensures forall c: nat :: c >= cur ==> GetUleb(a, c, end) == GetUleb(b, c, end)
    ensures forall c: nat :: c >= cur ==> GetSleb(a, c, end) == GetSleb(b, c, end)
    ensures forall c: nat, n: nat :: c >= cur && c + n <= end ==> LittleEndian(a, c, n) == LittleEndian(b, c, n)
  {
    hide Uleb, Sleb, LittleEndian;
    forall c: nat | c >= cur
      ensures GetUleb(a, c, end) == GetUleb(b, c, end) && GetSleb(a, c, end) == GetSleb(b, c, end)
    {
      UlebLocal(a, b, c, end, 0, 0);
      SlebLocal(a, b, c, end, 0, 0);
    }
    forall c: nat, n: nat | c >= cur && c + n <= end
      ensures LittleEndian(a, c, n) == LittleEndian(b, c, n)
    {
      LittleEndianLocal(a, b, c, n);
    }
  }

  lemma ReadPointerLocal(sec: Section, b: seq<Byte>, pos: nat, end: nat, enc: Byte)
    requires Agree(sec.buf, b, pos, end)
    ensures ReadPointer(sec, pos, end, enc) == ReadPointer(sec.(buf := b), pos, end, enc)
  {
    hide Uleb, Sleb, LittleEndian, SignExtend;
    OperandsLocal(sec.buf, b, pos, end);
  }

  /** An instruction that ends inside the bound, or strays, depends on no byte outside it. */
  lemma ExecLocal(cx: Context, b: seq<Byte>, cur: nat, end: nat, st: State)
    requires Wf(st) && cur < end && Agree(cx.sec.buf, b, cur, end)
    requires var s := Exec(cx, cur, end, st); s.ok && (s.cur <= end || FlaggedExpression(cx, cur, end))
    ensures Exec(cx.(sec := cx.sec.(buf := b)), cur, end, st) == Exec(cx, cur, end, st)
  {
    hide GetUleb, GetSleb, LittleEndian, SetRule, SetCfa, RestoreRule, Product, ReadPointer, Remember, Recall;
    hide ByteAt, Wrap;
    assert ByteAt(cx.sec.buf, cur) == ByteAt(b, cur);
    if cur + 1 < end {
      assert ByteAt(cx.sec.buf, cur + 1) == ByteAt(b, cur + 1);
    }
    OperandsLocal(cx.sec.buf, b, cur + 1, end);
    ReadPointerLocal(cx.sec, b, cur + 1, end, cx.ptrType);
  }

  lemma {:induction false} AcceptedRunLocal(cx: Context, b: seq<Byte>, cur: nat, end: nat, target: Word, st: State)
    requires Wf(st) && Agree(cx.sec.buf, b, cur, end) && HasRoom(cx, end)
    requires var r := Run(cx, cur, end, target, st); r.ok || r.strayed
    ensures Run(cx.(sec := cx.sec.(buf := b)), cur, end, target, st) == Run(cx, cur, end, target, st)
    decreases end - cur
  {
    hide Exec, Wrap, FlaggedExpression;
    if cur < end {
      var s := Exec(cx, cur, end, st);
      StraysExactly(cx, cur, end, st);
      ExecLocal(cx, b, cur, end, st);
      if !(target != 0 && target < s.st.loc) && s.cur <= end {
        AcceptedRunLocal(cx, b, s.cur, end, target, s.st);
      }
    }
  }

  /** Up to the point where a run strays, if it does, nothing depends on a byte outside the program:
      not whether it is accepted, not whether it strays, and not the state it leaves then. Whatever
      else is read past the end belongs to a run that is rejected. */
  lemma RunReadsOnlyProgram(cx: Context, b: seq<Byte>, cur: nat, end: nat, target: Word, st: State)
    requires Wf(st) && Agree(cx.sec.buf, b, cur, end) && HasRoom(cx, end)
    ensures var r := Run(cx, cur, end, target, st);
            var r' := Run(cx.(sec := cx.sec.(buf := b)), cur, end, target, st);
            r.ok == r'.ok && r.strayed == r'.strayed && (r.ok || r.strayed ==> r == r')
  {
    hide Exec;
    var cx' := cx.(sec := cx.sec.(buf := b));
    var r, r' := Run(cx, cur, end, target, st), Run(cx', cur, end, target, st);
    if r.ok || r.strayed {
      AcceptedRunLocal(cx, b, cur, end, target, st);
    } else if r'.ok || r'.strayed {
      assert cx'.(sec := cx'.sec.(buf := cx.sec.buf)) == cx;
      AcceptedRunLocal(cx', cx.sec.buf, cur, end, target, st);
    }
  }
}
