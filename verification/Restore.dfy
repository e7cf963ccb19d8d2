/** Restoring the registers of the calling frame: the rule-by-rule restore, the three-register
    shortcut for standard frames, and how the two agree. */
module Restore {
  import opened Words
  import opened UserMemory
  import opened CfiState
  import Expression

  /** Register columns of a frame, the pc column last, and `call_frame`: 1 when the pc is a
      return address, 0 when it is exact. */
  datatype Frame = Frame(regs: seq<Word>, callFrame: nat)

  predicate WfFrame(f: Frame) {
    |f.regs| == COLUMNS && f.callFrame <= 1
  }

  /** The pc the frame is looked up with. */
  function PcOf(f: Frame): Word
    requires WfFrame(f)
  {
    Wrap(f.regs[PC_COLUMN] - f.callFrame)
  }

  const MINUS_8: Word := 0xffff_ffff_ffff_fff8

  // ----- the shortcut -----

  /** `tdep_frame`: what a standard frame needs. An item keeps its rule; the payload of a rule
      that has none is never looked at. */
  datatype Tdep = Tdep(pc: Word, cfaReg: Word, cfaOff: Word, rbp: Item, rsp: Item, last: bool)

  predicate PlainItem(item: Item) {
    item.Nowhere? || item.Same? || item.Memory?
  }

  /** `check_standard_frame`. */
  predicate Standard(row: Row)
    requires WfRow(row)
  {
    && row.cfa.RegOff? && (row.cfa.reg == RBP || row.cfa.reg == RSP)
    && row.regs[PC_COLUMN] == Memory(MINUS_8)
    && PlainItem(row.regs[RSP]) && PlainItem(row.regs[RBP])
  }

  function Project(row: Row, pc: Word, retColumn: nat): Tdep
    requires WfRow(row) && Standard(row) && retColumn < COLUMNS
  {
    Tdep(pc, row.cfa.reg, row.cfa.off, row.regs[RBP], row.regs[RSP], row.regs[retColumn].Nowhere?)
  }

  predicate WfTdep(e: Tdep) {
    e.cfaReg == RBP || e.cfaReg == RSP
  }

  /** Whether the memory reads went through, and the registers as left by the last of them. */
  datatype Applied = Applied(ok: bool, regs: seq<Word>)

  function ApplyTdep(regs: seq<Word>, e: Tdep, mem: Memory): (r: Applied)
    requires |regs| == COLUMNS && WfTdep(e)
    ensures |r.regs| == COLUMNS
  {
    var cfa := Wrap(regs[e.cfaReg] + e.cfaOff);
    var bp := if e.rbp.Memory? then ReadWord(mem, Wrap(cfa + e.rbp.off)) else Some(regs[RBP]);
    if bp.None? then Applied(false, regs) else
    var regs1 := regs[RBP := bp.value];
    var sp := if e.rsp.Memory? then ReadWord(mem, Wrap(cfa + e.rsp.off)) else Some(cfa);
    if sp.None? then Applied(false, regs1) else
    var regs2 := regs1[RSP := sp.value];
    var pc := ReadWord(mem, Wrap(cfa - 8));
    if pc.None? then Applied(false, regs2) else Applied(true, regs2[PC_COLUMN := pc.value])
  }

  // ----- the full restore -----

  /** Surroundings of the full restore that only expression rules look at: the section, where
      it is mapped, and what uninitialised locals hold. */
  datatype Surroundings = Surroundings(buf: seq<Byte>, base: Word, junk: seq<Word>, junkValue: Word)

  predicate WfSurroundings(sr: Surroundings) {
    |sr.junk| == Expression.SLOTS
  }

  function EnvOf(sr: Surroundings, regs: seq<Word>, mem: Memory): Expression.Env {
    Expression.Env(sr.buf, sr.base, regs, mem, sr.junk)
  }

  function ComputeCfa(sr: Surroundings, regs: seq<Word>, mem: Memory, cfa: Cfa): Attempt<Word>
    requires |regs| == COLUMNS && WfSurroundings(sr)
  {
    match cfa
    case CfaExpr(ptr) => Expression.Compute(EnvOf(sr, regs, mem), ptr)
    case RegOff(reg, off) =>
      if reg >= COLUMNS || off % 4 != 0 then Refused else Done(Wrap(regs[reg] + off))
  }

  /** First pass: a register rule is replaced by the value of the register it names. */
  function Snapshot(items: seq<Item>, regs: seq<Word>): (r: Option<seq<Item>>)
    requires |regs| == COLUMNS
    ensures r.Some? ==> |r.value| == |items|
  {
    if exists i :: 0 <= i < |items| && items[i].Register? && items[i].reg >= COLUMNS then None
    else Some(seq(|items|, i requires 0 <= i < |items| => SnapshotItem(items[i], regs)))
  }

  function SnapshotItem(item: Item, regs: seq<Word>): Item
    requires |regs| == COLUMNS
  {
    if item.Register? && item.reg < COLUMNS then Register(regs[item.reg]) else item
  }

  /** The registers and the local `val` in the middle of the second pass. */
  datatype Pass = Pass(regs: seq<Word>, val: Word)

  /** Second pass, one column. */
  function RestoreColumn(
      sr: Surroundings, mem: Memory, cfa: Word, items: seq<Item>, i: nat, p: Pass): (r: Attempt<Pass>)
    requires WfSurroundings(sr) && |items| == COLUMNS && |p.regs| == COLUMNS && i < COLUMNS
    ensures r.Done? ==> |r.value.regs| == COLUMNS
  {
    if i == RSP then Done(p.(regs := p.regs[RSP := cfa])) else
    match items[i]
    case Same => Done(p)
    case Nowhere => Done(p.(regs := p.regs[i := 0]))
    case Register(v) => Done(p.(regs := p.regs[i := v]))
    case Value(off) => var v := Wrap(cfa + off); Done(Pass(p.regs[i := v], v))
    case Memory(off) =>
      var w := ReadWord(mem, Wrap(cfa + off));
      Done(if w.Some? then p.(regs := p.regs[i := w.value]) else p)
    case Expr(ptr) =>
      var addr := Expression.Compute(EnvOf(sr, p.regs, mem), ptr);
      if !addr.Done? then Propagate(addr) else
      var w := ReadWord(mem, Wrap(cfa + sr.base + ptr));
      Done(if w.Some? then p.(regs := p.regs[i := w.value]) else p)
    case ValExpr(ptr) =>
      var addr := Expression.Compute(EnvOf(sr, p.regs, mem), ptr);
      if !addr.Done? then Propagate(addr) else Done(p.(regs := p.regs[i := p.val]))
  }

  /** Second pass over the columns listed. */
  function RestoreColumns(
      sr: Surroundings, mem: Memory, cfa: Word, items: seq<Item>, order: seq<nat>, p: Pass): (r: Attempt<Pass>)
    requires WfSurroundings(sr) && |items| == COLUMNS && |p.regs| == COLUMNS
    requires forall k :: 0 <= k < |order| ==> order[k] < COLUMNS
    ensures r.Done? ==> |r.value.regs| == COLUMNS
    decreases |order|
  {
    if order == [] then Done(p) else
    var next := RestoreColumn(sr, mem, cfa, items, order[0], p);
    if !next.Done? then Propagate(next) else RestoreColumns(sr, mem, cfa, items, order[1..], next.value)
  }

  function From(i: nat): (r: seq<nat>)
    requires i <= COLUMNS
    ensures |r| == COLUMNS - i && forall k :: 0 <= k < |r| ==> r[k] == i + k
  {
    seq(COLUMNS - i, k requires 0 <= k => i + k)
  }

  /** The full restore of a row, as its two loops leave the registers. */
  function SlowRestore(sr: Surroundings, mem: Memory, row: Row, regs: seq<Word>): (r: Attempt<seq<Word>>)
    requires WfSurroundings(sr) && WfRow(row) && |regs| == COLUMNS
    ensures r.Done? ==> |r.value| == COLUMNS
  {
    var cfa := ComputeCfa(sr, regs, mem, row.cfa);
    if !cfa.Done? then Propagate(cfa) else
    var items := Snapshot(row.regs, regs);
    if items.None? then Refused else
    var p := RestoreColumns(sr, mem, cfa.value, items.value, From(0), Pass(regs, sr.junkValue));
    if !p.Done? then Propagate(p) else Done(p.value.regs)
  }

  // ----- simultaneous assignment -----

  /** The value a rule gives a column in the old frame. */
  function RuleValue(item: Item, i: nat, cfa: Word, regs: seq<Word>, mem: Memory): Word
    requires |regs| == COLUMNS && i < COLUMNS
  {
    match item
    case Nowhere => 0
    case Register(reg) => if reg < COLUMNS then regs[reg] else 0
    case Value(off) => Wrap(cfa + off)
    case Memory(off) =>
      var w := ReadWord(mem, Wrap(cfa + off));
      if w.Some? then w.value else regs[i]
    case _ => regs[i]
  }

  function Simultaneous(items: seq<Item>, cfa: Word, regs: seq<Word>, mem: Memory): (r: seq<Word>)
    requires |items| == COLUMNS && |regs| == COLUMNS
    ensures |r| == COLUMNS
  {
    seq(COLUMNS, i requires 0 <= i < COLUMNS =>
      if i == RSP then cfa else RuleValue(items[i], i, cfa, regs, mem))
  }

  predicate NoExpr(item: Item) {
    !item.Expr? && !item.ValExpr?
  }

  predicate NoExprs(items: seq<Item>) {
    forall i :: 0 <= i < |items| ==> NoExpr(items[i])
  }

  ghost predicate Distinct(order: seq<nat>) {
    forall j, k :: 0 <= j < k < |order| ==> order[j] != order[k]
  }

  /** A column that the second pass gives the value of its rule: the stack pointer, which gets the
      CFA whatever its rule, and every column without an expression rule. */
  predicate Settled(items: seq<Item>, i: nat)
    requires i < |items|
  {
    i == RSP || NoExpr(items[i])
  }

  /** Settled columns outside `order` are done, those in it still hold their old value. */
  ghost predicate PartlyDone(items: seq<Item>, order: seq<nat>, old': seq<Word>, done: seq<Word>, now: seq<Word>)
    requires |items| == COLUMNS && |old'| == COLUMNS && |done| == COLUMNS && |now| == COLUMNS
  {
    forall i: nat :: i < COLUMNS && Settled(items, i) ==> now[i] == if i in order then old'[i] else done[i]
  }

  lemma ColumnDone(sr: Surroundings, mem: Memory, cfa: Word, items: seq<Item>, regs: seq<Word>, i: nat, p: Pass)
    requires WfSurroundings(sr) && |items| == COLUMNS && |regs| == COLUMNS && |p.regs| == COLUMNS && i < COLUMNS
    requires Snapshot(items, regs).Some? && (Settled(items, i) ==> p.regs[i] == regs[i])
    ensures var next := RestoreColumn(sr, mem, cfa, Snapshot(items, regs).value, i, p);
            && (next.Done? ==> next.value.regs == p.regs[i := next.value.regs[i]])
            && (Settled(items, i) ==> next.Done? && next.value.regs[i] == Simultaneous(items, cfa, regs, mem)[i])
  {
    hide ReadWord, Expression.Compute;
  }

  lemma {:induction false} ColumnsDone(
      sr: Surroundings, mem: Memory, cfa: Word, items: seq<Item>, regs: seq<Word>, order: seq<nat>, p: Pass)
    requires WfSurroundings(sr) && |items| == COLUMNS && |regs| == COLUMNS && |p.regs| == COLUMNS
    requires Snapshot(items, regs).Some?
    requires (forall k :: 0 <= k < |order| ==> order[k] < COLUMNS) && Distinct(order)
    requires PartlyDone(items, order, regs, Simultaneous(items, cfa, regs, mem), p.regs)
    ensures var r := RestoreColumns(sr, mem, cfa, Snapshot(items, regs).value, order, p);
            && (NoExprs(items) ==> r.Done?)
            && (r.Done? ==> PartlyDone(items, [], regs, Simultaneous(items, cfa, regs, mem), r.value.regs))
    decreases |order|
  {
    hide RestoreColumn, Simultaneous, Snapshot;
    if order != [] {
      var i := order[0];
      ColumnDone(sr, mem, cfa, items, regs, i, p);
      var next := RestoreColumn(sr, mem, cfa, Snapshot(items, regs).value, i, p);
      forall j: nat | j < COLUMNS
        ensures j in order[1..] <==> j in order && j != i
      {
      }
      if next.Done? {
        ColumnsDone(sr, mem, cfa, items, regs, order[1..], next.value);
      }
    }
  }

  /** The two passes are a simultaneous assignment: every settled column gets what its rule gives
      in the old frame, cycles of register rules included, the stack pointer gets the CFA, and
      the order in which the second pass visits the columns does not matter. Only an expression
      rule can make the second pass fail. */
  lemma RestoreIsSimultaneous(
      sr: Surroundings, mem: Memory, cfa: Word, items: seq<Item>, regs: seq<Word>, order: seq<nat>, val: Word)
    requires WfSurroundings(sr) && |items| == COLUMNS && |regs| == COLUMNS
    requires Snapshot(items, regs).Some?
    requires (forall k :: 0 <= k < |order| ==> order[k] < COLUMNS) && Distinct(order)
    requires forall i: nat :: i < COLUMNS ==> i in order
    ensures var r := RestoreColumns(sr, mem, cfa, Snapshot(items, regs).value, order, Pass(regs, val));
            var want := Simultaneous(items, cfa, regs, mem);
            && (r.Done? ==> forall i: nat :: i < COLUMNS && Settled(items, i) ==> r.value.regs[i] == want[i])
            && (NoExprs(items) ==> r.Done? && r.value.regs == want)
  {
    hide RestoreColumns, Simultaneous, Snapshot;
    ColumnsDone(sr, mem, cfa, items, regs, order, Pass(regs, val));
  }

  /** The code's own order is one of them. */
  lemma SlowIsSimultaneous(sr: Surroundings, mem: Memory, row: Row, regs: seq<Word>)
    requires WfSurroundings(sr) && WfRow(row) && |regs| == COLUMNS
    ensures var cfa := ComputeCfa(sr, regs, mem, row.cfa);
            var r := SlowRestore(sr, mem, row, regs);
            && (r.Done? ==>
                  && cfa.Done? && Snapshot(row.regs, regs).Some?
                  && forall i: nat :: i < COLUMNS && Settled(row.regs, i) ==>
                       r.value[i] == Simultaneous(row.regs, cfa.value, regs, mem)[i])
            && (NoExprs(row.regs) ==>
                  r == if !cfa.Done? then Propagate(cfa)
                       else if Snapshot(row.regs, regs).None? then Refused
                       else Done(Simultaneous(row.regs, cfa.value, regs, mem)))
  {
    hide RestoreColumns, Simultaneous, Snapshot, ComputeCfa;
    var cfa := ComputeCfa(sr, regs, mem, row.cfa);
    if cfa.Done? && Snapshot(row.regs, regs).Some? {
      forall i: nat | i < COLUMNS
        ensures i in From(0)
      {
        assert From(0)[i] == i;
      }
      RestoreIsSimultaneous(sr, mem, cfa.value, row.regs, regs, From(0), sr.junkValue);
    }
  }

  // ----- shortcut against full restore -----

  /** The registers the shortcut maintains. */
  predicate SameTriple(a: seq<Word>, b: seq<Word>)
    requires |a| == COLUMNS && |b| == COLUMNS
  {
    a[PC_COLUMN] == b[PC_COLUMN] && a[RSP] == b[RSP] && a[RBP] == b[RBP]
  }

  predicate RegistersExist(items: seq<Item>) {
    forall i :: 0 <= i < |items| && items[i].Register? ==> items[i].reg < COLUMNS
  }

  /** What makes the shortcut right on a standard row: the full restore accepts the CFA offset and
      every register rule, a saved stack pointer equals the CFA, and a base pointer that the row
      gives up is already zero. */
  predicate ShortcutExact(row: Row, regs: seq<Word>, mem: Memory)
    requires WfRow(row) && Standard(row) && |regs| == COLUMNS
  {
    var cfa: Word := Wrap(regs[row.cfa.reg] + row.cfa.off);
    && row.cfa.off % 4 == 0 && RegistersExist(row.regs)
    && (row.regs[RSP].Memory? ==> ReadWord(mem, Wrap(cfa + row.regs[RSP].off)) == Some(cfa))
    && (row.regs[RBP].Nowhere? ==> regs[RBP] == 0)
  }

  /** One frame, any standard row: when the shortcut's reads go through, it agrees with the full
      restore on pc, sp and bp exactly under that condition. The other registers of the two
      frames may differ. With expression rules in other columns the full restore may also fail
      on those. */
  lemma ShortcutIsRestore(
      sr: Surroundings, mem: Memory, row: Row, pc: Word, ret: nat, fast: seq<Word>, slow: seq<Word>)
    requires WfSurroundings(sr) && WfRow(row) && Standard(row) && ret < COLUMNS
    requires |fast| == COLUMNS && |slow| == COLUMNS && SameTriple(fast, slow)
    requires ApplyTdep(fast, Project(row, pc, ret), mem).ok
    ensures var a := ApplyTdep(fast, Project(row, pc, ret), mem).regs;
            var r := SlowRestore(sr, mem, row, slow);
            && (r.Done? ==> (SameTriple(a, r.value) <==> ShortcutExact(row, fast, mem)))
            && (NoExprs(row.regs) ==> (r.Done? && SameTriple(a, r.value) <==> ShortcutExact(row, fast, mem)))
  {
    hide ReadWord, SlowRestore, Snapshot;
    SnapshotDefined(row.regs, slow);
    SlowIsSimultaneous(sr, mem, row, slow);
    var cfa: Word := Wrap(fast[row.cfa.reg] + row.cfa.off);
    assert ComputeCfa(sr, slow, mem, row.cfa) == if row.cfa.off % 4 == 0 then Done(cfa) else Refused;
    MinusEight(cfa);
    assert Settled(row.regs, RSP) && Settled(row.regs, RBP) && Settled(row.regs, PC_COLUMN);
  }

  /** A CFA ten bytes above the stack pointer, everything else kept, the return address below it. */
  function OddRow(): (r: Row)
    ensures WfRow(r) && Standard(r)
  {
    Row(RegOff(RSP, 10), seq(COLUMNS, _ => Same)[PC_COLUMN := Memory(MINUS_8)])
  }

  /** An input on which they disagree: the shortcut restores the frame and the full restore refuses
      it. */
  lemma ShortcutDisagrees(sr: Surroundings, mem: Memory, regs: seq<Word>, pc: Word)
    requires WfSurroundings(sr) && |regs| == COLUMNS && regs[RSP] == 0x1000
    requires ReadWord(mem, 0x1002) == Some(0x2000)
    ensures ApplyTdep(regs, Project(OddRow(), pc, PC_COLUMN), mem) ==
            Applied(true, regs[RSP := 0x100a][PC_COLUMN := 0x2000])
    ensures SlowRestore(sr, mem, OddRow(), regs) == Refused
  {
    hide ReadWord, RestoreColumns, Snapshot;
    assert regs[RBP := regs[RBP]] == regs;
  }

  lemma SnapshotDefined(items: seq<Item>, regs: seq<Word>)
    requires |regs| == COLUMNS
    ensures Snapshot(items, regs).Some? <==> RegistersExist(items)
  {
  }

  lemma MinusEight(cfa: Word)
    ensures Wrap(cfa + MINUS_8) == Wrap(cfa - 8)
  {
  }

  /** What a fresh look-up at a pc says. */
  datatype RawFound = Found(row: Row, ret: nat, callFrame: nat)

  predicate WfFound(d: RawFound) {
    WfRow(d.row) && d.ret < COLUMNS && d.callFrame <= 1
  }

  type Found = d: RawFound | WfFound(d) witness Found(Row(RegOff(0, 0), seq(COLUMNS, _ => Same)), 0, 0)

  /** `n` shortcuts, while the frames are standard and their reads go through. */
  ghost function FastWalk(code: Word -> Found, mem: Memory, f: Frame, n: nat): (r: Option<Frame>)
    requires WfFrame(f)
    ensures r.Some? ==> WfFrame(r.value)
    decreases n
  {
    if n == 0 then Some(f) else
    var d := code(PcOf(f));
    if !Standard(d.row) then None else
    var a := ApplyTdep(f.regs, Project(d.row, PcOf(f), d.ret), mem);
    if !a.ok then None else FastWalk(code, mem, Frame(a.regs, d.callFrame), n - 1)
  }

  /** `n` full restores. */
  ghost function SlowWalk(code: Word -> Found, sr: Surroundings, mem: Memory, f: Frame, n: nat): (r: Option<Frame>)
    requires WfFrame(f) && WfSurroundings(sr)
    ensures r.Some? ==> WfFrame(r.value)
    decreases n
  {
    if n == 0 then Some(f) else
    var d := code(PcOf(f));
    var r := SlowRestore(sr, mem, d.row, f.regs);
    if !r.Done? then None else SlowWalk(code, sr, mem, Frame(r.value, d.callFrame), n - 1)
  }

  /** The next `n` frames are standard, their reads go through and the shortcut is right on them. */
  ghost predicate Chain(code: Word -> Found, mem: Memory, f: Frame, n: nat)
    requires WfFrame(f)
    decreases n
  {
    n > 0 ==>
      var d := code(PcOf(f));
      && Standard(d.row) && ShortcutExact(d.row, f.regs, mem)
      && var a := ApplyTdep(f.regs, Project(d.row, PcOf(f), d.ret), mem);
         a.ok && Chain(code, mem, Frame(a.regs, d.callFrame), n - 1)
  }

  /** No expression rules in the rows that the next `n` shortcuts meet. */
  ghost predicate Plain(code: Word -> Found, mem: Memory, f: Frame, n: nat)
    requires WfFrame(f)
    decreases n
  {
    n > 0 ==>
      var d := code(PcOf(f));
      && NoExprs(d.row.regs)
      && (Standard(d.row) ==>
            var a := ApplyTdep(f.regs, Project(d.row, PcOf(f), d.ret), mem);
            a.ok ==> Plain(code, mem, Frame(a.regs, d.callFrame), n - 1))
  }

  /** After `k` frames both walks are still going, with the same pc, sp and bp. */
  ghost predicate AgreeAt(code: Word -> Found, sr: Surroundings, mem: Memory, fast: Frame, slow: Frame, k: nat)
    requires WfFrame(fast) && WfFrame(slow) && WfSurroundings(sr)
  {
    var a, b := FastWalk(code, mem, fast, k), SlowWalk(code, sr, mem, slow, k);
    && a.Some? && b.Some?
    && a.value.callFrame == b.value.callFrame && SameTriple(a.value.regs, b.value.regs)
    && PcOf(a.value) == PcOf(b.value)
  }

  /** Whole runs: the shortcut has the same pc, sp and bp as the full restore at every depth if
      and only if it is right on every single frame and the full restore gets that far, although
      it restores no other register and the two runs may start from frames that differ in all of
      those. Without expression rules the full restore always gets as far as the shortcut. */
  lemma {:induction false} FastSimulatesSlow(
      code: Word -> Found, sr: Surroundings, mem: Memory, fast: Frame, slow: Frame, n: nat)
    requires WfFrame(fast) && WfFrame(slow) && WfSurroundings(sr)
    requires fast.callFrame == slow.callFrame && SameTriple(fast.regs, slow.regs)
    ensures (forall k: nat :: k <= n ==> AgreeAt(code, sr, mem, fast, slow, k)) <==>
            Chain(code, mem, fast, n) && SlowWalk(code, sr, mem, slow, n).Some?
    ensures Plain(code, mem, fast, n) && Chain(code, mem, fast, n) ==> SlowWalk(code, sr, mem, slow, n).Some?
    decreases n
  {
    hide ApplyTdep, SlowRestore, ReadWord, ShortcutExact;
    assert AgreeAt(code, sr, mem, fast, slow, 0);
    var d := code(PcOf(fast));
    if n > 0 && Standard(d.row) && ApplyTdep(fast.regs, Project(d.row, PcOf(fast), d.ret), mem).ok {
      ShortcutIsRestore(sr, mem, d.row, PcOf(fast), d.ret, fast.regs, slow.regs);
      var r := SlowRestore(sr, mem, d.row, slow.regs);
      if ShortcutExact(d.row, fast.regs, mem) && r.Done? {
        var f := Frame(ApplyTdep(fast.regs, Project(d.row, PcOf(fast), d.ret), mem).regs, d.callFrame);
        var s := Frame(r.value, d.callFrame);
        FastSimulatesSlow(code, sr, mem, f, s, n - 1);
        forall k: nat
          ensures AgreeAt(code, sr, mem, f, s, k) == AgreeAt(code, sr, mem, fast, slow, k + 1)
        {
        }
        assert forall k: nat :: 0 < k <= n ==>
          AgreeAt(code, sr, mem, fast, slow, k) == AgreeAt(code, sr, mem, f, s, k - 1);
      } else {
        if AgreeAt(code, sr, mem, fast, slow, 1) {
          OneStep(code, sr, mem, fast, slow);
        }
      }
    } else if n > 0 {
      assert !AgreeAt(code, sr, mem, fast, slow, 1);
    }
  }

  lemma OneStep(code: Word -> Found, sr: Surroundings, mem: Memory, fast: Frame, slow: Frame)
    requires WfFrame(fast) && WfFrame(slow) && WfSurroundings(sr)
    requires PcOf(fast) == PcOf(slow) && Standard(code(PcOf(fast)).row)
    requires AgreeAt(code, sr, mem, fast, slow, 1)
    ensures var d := code(PcOf(fast));
            var r := SlowRestore(sr, mem, d.row, slow.regs);
            && r.Done?
            && SameTriple(ApplyTdep(fast.regs, Project(d.row, PcOf(fast), d.ret), mem).regs, r.value)
  {
    hide ApplyTdep, SlowRestore;
    var d := code(PcOf(fast));
    var a := ApplyTdep(fast.regs, Project(d.row, PcOf(fast), d.ret), mem);
    assert FastWalk(code, mem, Frame(a.regs, d.callFrame), 0) == Some(Frame(a.regs, d.callFrame));
  }

  // ----- the frame object -----

  /** `struct unwind_frame_info`, whose registers the restores overwrite in place. */
  class FrameInfo {
    const reg: array<Word>
    var callFrame: nat

    ghost function View(): Frame
      reads this, reg
    {
      Frame(reg[..], callFrame)
    }

    ghost predicate Valid()
      reads this, reg
    {
      WfFrame(View())
    }

    constructor (f: Frame)
      requires WfFrame(f)
      ensures Valid() && fresh(reg) && View() == f
    {
      reg := new Word[COLUMNS](i requires 0 <= i < COLUMNS => f.regs[i]);
      callFrame := f.callFrame;
    }

    method SetReg(i: nat, v: Word)
      requires Valid() && i < COLUMNS
      modifies reg
      ensures Valid() && reg[..] == old(reg[..])[i := v]
    {
      reg[i] := v;
    }

    /** `restore_reg_from_memory`. */
    method LoadRegister(i: nat, addr: Word, mem: Memory) returns (ok: bool)
      requires Valid() && i < COLUMNS
      modifies reg
      ensures Valid() && ok == ReadWord(mem, addr).Some?
      ensures reg[..] == if ok then old(reg[..])[i := ReadWord(mem, addr).value] else old(reg[..])
    {
      hide ReadWord;
      var w := ReadWord(mem, addr);
      ok := w.Some?;
      if ok {
        SetReg(i, w.value);
      }
    }

    /** `apply_tdep_state`. */
    method ApplyState(e: Tdep, mem: Memory) returns (ok: bool)
      requires Valid() && WfTdep(e)
      modifies reg
      ensures Valid() && Applied(ok, reg[..]) == ApplyTdep(old(reg[..]), e, mem)
    {
      hide ReadWord;
      var cfa := Wrap(reg[e.cfaReg] + e.cfaOff);
      assert reg[..][RBP := reg[RBP]] == reg[..];
      if e.rbp.Memory? {
        ok := LoadRegister(RBP, Wrap(cfa + e.rbp.off), mem);
        if !ok { return; }
      }
      if e.rsp.Memory? {
        ok := LoadRegister(RSP, Wrap(cfa + e.rsp.off), mem);
        if !ok { return; }
      } else {
        SetReg(RSP, cfa);
      }
      ok := LoadRegister(PC_COLUMN, Wrap(cfa - 8), mem);
    }

    /** One column of the second loop; `val` is the local that a value rule leaves behind. */
    method RestoreOne(sr: Surroundings, mem: Memory, cfa: Word, items: seq<Item>, i: nat, val: Word)
      returns (done: Attempt<Word>)
      requires Valid() && WfSurroundings(sr) && |items| == COLUMNS && i < COLUMNS
      modifies reg
      ensures Valid()
      ensures var r := RestoreColumn(sr, mem, cfa, items, i, Pass(old(reg[..]), val));
              if r.Done? then done.Done? && r.value == Pass(reg[..], done.value) else done == Propagate(r)
    {
      hide ReadWord, Expression.Compute;
      done := Done(val);
      if i == RSP {
        SetReg(RSP, cfa);
        return;
      }
      match items[i] {
        case Same =>
        case Nowhere => SetReg(i, 0);
        case Register(v) => SetReg(i, v);
        case Value(off) =>
          done := Done(Wrap(cfa + off));
          SetReg(i, Wrap(cfa + off));
        case Memory(off) =>
          var _ := LoadRegister(i, Wrap(cfa + off), mem);
        case Expr(ptr) =>
          var addr := Expression.ComputeExpr(Expression.Env(sr.buf, sr.base, reg[..], mem, sr.junk), ptr);
          if !addr.Done? { return addr; }
          var _ := LoadRegister(i, Wrap(cfa + sr.base + ptr), mem);
        case ValExpr(ptr) =>
          var addr := Expression.ComputeExpr(Expression.Env(sr.buf, sr.base, reg[..], mem, sr.junk), ptr);
          if !addr.Done? { return addr; }
          SetReg(i, val);
      }
    }

    /** First loop: fetch what register rules name, refusing columns that do not exist. */
    method TakeSnapshot(rules: seq<Item>) returns (ok: bool, items: seq<Item>)
      requires Valid() && |rules| == COLUMNS
      ensures ok == Snapshot(rules, reg[..]).Some?
      ensures ok ==> items == Snapshot(rules, reg[..]).value
    {
      items := rules;
      for i := 0 to COLUMNS
        invariant |items| == COLUMNS
        invariant forall k :: 0 <= k < i ==> items[k] == SnapshotItem(rules[k], reg[..])
        invariant forall k :: 0 <= k < i ==> !(rules[k].Register? && rules[k].reg >= COLUMNS)
        invariant forall k :: i <= k < COLUMNS ==> items[k] == rules[k]
      {
        if items[i].Register? {
          if items[i].reg >= COLUMNS {
            return false, items;
          }
          items := items[i := Register(reg[items[i].reg])];
        }
      }
      ok := true;
    }

    /** The CFA and the two loops of the full restore. */
    method RestoreRow(sr: Surroundings, mem: Memory, row: Row) returns (done: Attempt<()>)
      requires Valid() && WfSurroundings(sr) && WfRow(row)
      modifies reg
      ensures Valid()
      ensures var r := SlowRestore(sr, mem, row, old(reg[..]));
              if r.Done? then done.Done? && reg[..] == r.value else done == Propagate(r)
    {
      hide RestoreColumn, RestoreColumns, Snapshot, Expression.Compute;
      var cfa: Attempt<Word>;
      if row.cfa.CfaExpr? {
        cfa := Expression.ComputeExpr(Expression.Env(sr.buf, sr.base, reg[..], mem, sr.junk), row.cfa.ptr);
      } else {
        cfa := ComputeCfa(sr, reg[..], mem, row.cfa);
      }
      if !cfa.Done? {
        return Propagate(cfa);
      }
      var taken, items := TakeSnapshot(row.regs);
      if !taken {
        return Refused;
      }
      ghost var goal := RestoreColumns(sr, mem, cfa.value, items, From(0), Pass(reg[..], sr.junkValue));
      var val := sr.junkValue;
      for i := 0 to COLUMNS
        invariant Valid()
        invariant RestoreColumns(sr, mem, cfa.value, items, From(i), Pass(reg[..], val)) == goal
      {
        NextColumn(sr, mem, cfa.value, items, i, Pass(reg[..], val));
        var one := RestoreOne(sr, mem, cfa.value, items, i, val);
        if !one.Done? {
          return Propagate(one);
        }
        val := one.value;
      }
      NoMoreColumns(sr, mem, cfa.value, items, Pass(reg[..], val));
      done := Done(());
    }
  }

  lemma NextColumn(sr: Surroundings, mem: Memory, cfa: Word, items: seq<Item>, i: nat, p: Pass)
    requires WfSurroundings(sr) && |items| == COLUMNS && |p.regs| == COLUMNS && i < COLUMNS
    ensures var next := RestoreColumn(sr, mem, cfa, items, i, p);
            RestoreColumns(sr, mem, cfa, items, From(i), p) ==
            if !next.Done? then Propagate(next) else RestoreColumns(sr, mem, cfa, items, From(i + 1), next.value)
  {
    hide RestoreColumn;
    assert From(i)[1..] == From(i + 1);
  }

  lemma NoMoreColumns(sr: Surroundings, mem: Memory, cfa: Word, items: seq<Item>, p: Pass)
    requires WfSurroundings(sr) && |items| == COLUMNS && |p.regs| == COLUMNS
    ensures RestoreColumns(sr, mem, cfa, items, From(COLUMNS), p) == Done(p)
  {
  }
}
