/** The backtrace in terms of the tables that the instructions describe: restoring registers by a
    row of the abstract table (section 6.4.3 of DWARF 4), and the proof that a backtrace over
    encoded objects reports the pcs that such restores reach. */
module AbstractUnwind {
  import opened Words
  import opened UserMemory
  import opened CfiState
  import opened CfiSemantics
  import opened CfiTable
  import opened EncodedPointer
  import opened FdeIndex
  import opened CieRoundTrip
  import opened Restore
  import opened Steps
  import opened Unwinder
  import opened LookupCorrect
  import opened EndToEnd
  import opened Backtrace

  // ----- restoring by a table row -----

  predicate NoExprRule(rule: Rule) {
    !rule.SavedAtExpr? && !rule.IsExpr?
  }

  /** A row without expressions. */
  predicate ExprFree(row: TableRow) {
    && row.cfa.RegisterPlus? && |row.rules| == COLUMNS
    && forall i :: 0 <= i < COLUMNS ==> NoExprRule(row.rules[i])
  }

  /** What a rule says of a register; one whose save slot cannot be read keeps its value. */
  function RuleGives(rule: Rule, i: nat, cfa: Word, regs: seq<Word>, mem: Memory): Word
    requires |regs| == COLUMNS && i < COLUMNS
  {
    match rule
    case Unrecoverable => 0
    case HeldIn(reg) => if reg < COLUMNS then regs[reg] else 0
    case IsCfaPlus(off) => Wrap(cfa + off)
    case SavedAt(off) =>
      var w := ReadWord(mem, Wrap(cfa + off));
      if w.Some? then w.value else regs[i]
    case _ => regs[i]
  }

  function CfaOf(row: TableRow, regs: seq<Word>): Word
    requires ExprFree(row) && |regs| == COLUMNS && row.cfa.reg < COLUMNS
  {
    Wrap(regs[row.cfa.reg] + row.cfa.off)
  }

  predicate RulesExist(rules: seq<Rule>) {
    forall i :: 0 <= i < |rules| && rules[i].HeldIn? ==> rules[i].reg < COLUMNS
  }

  function RegistersBy(row: TableRow, regs: seq<Word>, mem: Memory): (r: seq<Word>)
    requires ExprFree(row) && |regs| == COLUMNS && row.cfa.reg < COLUMNS
    ensures |r| == COLUMNS
  {
    var cfa := CfaOf(row, regs);
    seq(COLUMNS, i requires 0 <= i < COLUMNS =>
      if i == RSP then cfa else RuleGives(row.rules[i], i, cfa, regs, mem))
  }

  /** The registers of the caller: the stack pointer is the CFA, every other register what its rule
      says. The CFA must be a multiple of four from an existing register. */
  function RestoreBy(row: TableRow, regs: seq<Word>, mem: Memory): (r: Option<seq<Word>>)
    requires ExprFree(row) && |regs| == COLUMNS
    ensures r.Some? ==> |r.value| == COLUMNS
  {
    if row.cfa.reg >= COLUMNS || row.cfa.off % 4 != 0 || !RulesExist(row.rules) then None
    else Some(RegistersBy(row, regs, mem))
  }

  lemma ItemIs(buf: seq<Byte>, row: Row, i: nat)
    requires WfRow(row) && i < COLUMNS
    ensures AbsRow(buf, row).rules[i] == AbsItem(buf, row.regs[i])
    ensures NoExprRule(AbsRow(buf, row).rules[i]) <==> NoExpr(row.regs[i])
    ensures AbsRow(buf, row).rules[i].HeldIn? <==> row.regs[i].Register?
    ensures row.regs[i].Register? ==> AbsRow(buf, row).rules[i].reg == row.regs[i].reg
  {
    hide BlockAt;
  }

  /** The full restore of the code is the restore by the row it stands for. */
  lemma RestoreRefines(sr: Surroundings, mem: Memory, buf: seq<Byte>, row: Row, regs: seq<Word>)
    requires WfSurroundings(sr) && WfRow(row) && |regs| == COLUMNS && ExprFree(AbsRow(buf, row))
    ensures SlowRestore(sr, mem, row, regs) == Tried(RestoreBy(AbsRow(buf, row), regs, mem))
    ensures NoExprs(row.regs)
  {
    hide SlowRestore, Snapshot, ReadWord, AbsRow;
    var t := AbsRow(buf, row);
    forall i: nat | i < COLUMNS
      ensures t.rules[i] == AbsItem(buf, row.regs[i]) && NoExpr(row.regs[i])
      ensures t.rules[i].HeldIn? <==> row.regs[i].Register?
      ensures row.regs[i].Register? ==> t.rules[i].reg == row.regs[i].reg
    {
      ItemIs(buf, row, i);
    }
    assert row.cfa.RegOff? && t.cfa == RegisterPlus(row.cfa.reg, row.cfa.off) by { CfaIs(buf, row); }
    SlowIsSimultaneous(sr, mem, row, regs);
    SnapshotDefined(row.regs, regs);
    assert RulesExist(t.rules) <==> RegistersExist(row.regs);
    if RestoreBy(t, regs, mem).Some? {
      assert Simultaneous(row.regs, CfaOf(t, regs), regs, mem) == RestoreBy(t, regs, mem).value;
    }
  }

  lemma CfaIs(buf: seq<Byte>, row: Row)
    requires ExprFree(AbsRow(buf, row))
    ensures row.cfa.RegOff? && AbsRow(buf, row).cfa == RegisterPlus(row.cfa.reg, row.cfa.off)
  {
    hide BlockAt;
  }

  // ----- described code -----

  /** Which object of the process, the image it holds, the start of its FDE's range and the machine
      between its programs. */
  datatype Description = Description(obj: nat, img: Image, startLoc: Word, mid: Machine)

  /** The first object whose mapping covers the pc, with a frame section of whole words. */
  ghost predicate InObject(proc: Process, pc: Word, i: nat) {
    && i < |proc| && proc[i].vmStart <= pc <= proc[i].vmEnd
    && (forall j :: 0 <= j < i ==> !(proc[j].vmStart <= pc <= proc[j].vmEnd))
    && |proc[i].ehf.buf| > 0 && |proc[i].ehf.buf| % 4 == 0
  }

  /** The bytes of a module are the image, its index leads from `pc` to it, and its programs run. */
  ghost predicate Describes(m: Module, pc: Word, d: Description) {
    && Leads(m, d.img.index, pc, d.img.fde) && HoldsFrames(m.ehf, d.img)
    && d.startLoc == AdjustStart(m, Target(m.ehf, PtrType(d.img), d.img.fdeHeader.start).value, PtrType(d.img)) != 0
    && pc <= d.startLoc + d.img.fdeHeader.range && Runs(d.img, d.startLoc, pc, d.mid)
  }

  /** The row of the described table at a pc. */
  ghost function DescribedRow(d: Description, pc: Word): Option<TableRow> {
    if WfStack(d.mid) then RowAt(AbsTable(AlignmentOf(d.img), d.img.fdeProg, d.mid), pc) else None
  }

  function DescribedCallFrame(d: Description): (r: nat)
    ensures r <= 1
  {
    CallFrame(Augs(d.img.header), 1)
  }

  /** `n` restores by the described rows. */
  ghost function AbstractWalk(code: Word -> Description, mem: Memory, f: Frame, n: nat): (r: Option<Frame>)
    requires WfFrame(f)
    ensures r.Some? ==> WfFrame(r.value)
    decreases n
  {
    if n == 0 then Some(f) else
    var d := code(PcOf(f));
    var row := DescribedRow(d, PcOf(f));
    if row.None? || !ExprFree(row.value) then None else
    var r := RestoreBy(row.value, f.regs, mem);
    if r.None? then None else AbstractWalk(code, mem, Frame(r.value, DescribedCallFrame(d)), n - 1)
  }

  lemma WalkOnce(code: Word -> Description, mem: Memory, f: Frame, row: TableRow)
    requires WfFrame(f) && ExprFree(row) && RestoreBy(row, f.regs, mem).Some?
    requires DescribedRow(code(PcOf(f)), PcOf(f)) == Some(row)
    ensures AbstractWalk(code, mem, f, 1) ==
            Some(Frame(RestoreBy(row, f.regs, mem).value, DescribedCallFrame(code(PcOf(f)))))
  {
    hide DescribedRow, RestoreBy, DescribedCallFrame, ExprFree;
    var next := Frame(RestoreBy(row, f.regs, mem).value, DescribedCallFrame(code(PcOf(f))));
    assert AbstractWalk(code, mem, next, 0) == Some(next);
  }

  predicate PlainRule(rule: Rule) {
    rule.Preserved? || rule.Unrecoverable? || rule.SavedAt?
  }

  /** A row of the common shape, not of the outermost frame, with readable save slots, a stack
      pointer that is the CFA if it is saved, and a base pointer that is zero if it is given up. */
  predicate Ordinary(row: TableRow, ret: nat, regs: seq<Word>, mem: Memory) {
    && ExprFree(row) && |regs| == COLUMNS && ret < COLUMNS
    && (row.cfa.reg == RBP || row.cfa.reg == RSP)
    && row.rules[PC_COLUMN] == SavedAt(MINUS_8) && PlainRule(row.rules[RSP]) && PlainRule(row.rules[RBP])
    && !row.rules[ret].Unrecoverable?
    && ReadWord(mem, Wrap(CfaOf(row, regs) - 8)).Some?
    && (row.rules[RBP].SavedAt? ==> ReadWord(mem, Wrap(CfaOf(row, regs) + row.rules[RBP].off)).Some?)
    && (row.rules[RSP].SavedAt? ==>
          ReadWord(mem, Wrap(CfaOf(row, regs) + row.rules[RSP].off)) == Some(CfaOf(row, regs)))
    && (row.rules[RBP].Unrecoverable? ==> regs[RBP] == 0)
  }

  /** The next `n` frames of the abstract walk lie in described code and are ordinary. */
  ghost predicate Described(proc: Process, code: Word -> Description, mem: Memory, f: Frame, n: nat)
    requires WfFrame(f)
    decreases n
  {
    n > 0 ==>
      var pc := PcOf(f);
      var d := code(pc);
      && pc != 0 && InObject(proc, pc, d.obj) && Describes(proc[d.obj], pc, d)
      && var row := DescribedRow(d, pc);
         && row.Some? && Ordinary(row.value, d.img.header.retColumn, f.regs, mem)
         && var r := RestoreBy(row.value, f.regs, mem);
            r.Some? && Described(proc, code, mem, Frame(r.value, DescribedCallFrame(d)), n - 1)
  }

  /** What the look-up gives in described code. */
  lemma DescribedLookUp(proc: Process, pc: Word, d: Description)
    requires InObject(proc, pc, d.obj) && Describes(proc[d.obj], pc, d)
    ensures var o := ObjectsOf(proc);
            && o.known(pc) && o.lookup(pc).At?
            && var found := o.lookup(pc).found;
               && found.ret == d.img.header.retColumn && found.callFrame == DescribedCallFrame(d)
               && DescribedRow(d, pc) == Some(AbsRow(proc[d.obj].ehf.buf, found.row))
  {
    hide LookUpIn, Leads, HoldsFrames, AbsTable, RowAt, AbsRow, ModuleFor, CallFrame, ObjectsOf;
    KnownExactly(proc, pc, d.obj);
    RunsKeeps(d.img, d.startLoc, pc, d.mid);
    LookUpEndToEnd(proc[d.obj], d.img, pc, d.startLoc, d.mid);
  }

  /** An ordinary row is one that the shortcut handles, and handles rightly, from any registers with
      the same pc, sp and bp. */
  lemma OrdinaryIsExact(mem: Memory, buf: seq<Byte>, found: Found, pc: Word, fast: seq<Word>, slow: seq<Word>)
    requires |fast| == COLUMNS && |slow| == COLUMNS && SameTriple(fast, slow)
    requires Ordinary(AbsRow(buf, found.row), found.ret, slow, mem)
    requires RestoreBy(AbsRow(buf, found.row), slow, mem).Some?
    ensures Standard(found.row) && !found.row.regs[found.ret].Nowhere? && ShortcutExact(found.row, fast, mem)
    ensures ApplyTdep(fast, Project(found.row, pc, found.ret), mem).ok
  {
    hide ReadWord, AbsRow;
    var row, t := found.row, AbsRow(buf, found.row);
    CfaIs(buf, row);
    forall i: nat | i < COLUMNS
      ensures t.rules[i] == AbsItem(buf, row.regs[i])
      ensures t.rules[i].HeldIn? <==> row.regs[i].Register?
      ensures row.regs[i].Register? ==> t.rules[i].reg == row.regs[i].reg
    {
      ItemIs(buf, row, i);
    }
  }

  /** One frame: the code finds the described row, its full restore is the abstract one, and the
      shortcut keeps pc, sp and bp equal to it. */
  lemma DescribedStep(
      proc: Process, code: Word -> Description, sr: Surroundings, mem: Memory, fast: Frame, slow: Frame, n: nat)
    requires WfFrame(fast) && WfFrame(slow) && WfSurroundings(sr) && n > 0
    requires fast.callFrame == slow.callFrame && SameTriple(fast.regs, slow.regs)
    requires Described(proc, code, mem, slow, n)
    ensures var o, pc := ObjectsOf(proc), PcOf(fast);
            && pc == PcOf(slow) && o.known(pc) && o.lookup(pc).At?
            && var d := o.lookup(pc).found;
               && Standard(d.row) && !d.row.regs[d.ret].Nowhere? && ShortcutExact(d.row, fast.regs, mem)
               && d.callFrame == DescribedCallFrame(code(pc))
               && var a := ApplyTdep(fast.regs, Project(d.row, pc, d.ret), mem);
                  var r := SlowRestore(sr, mem, d.row, slow.regs);
                  && a.ok && r.Done? && SameTriple(a.regs, r.value)
                  && RestoreBy(DescribedRow(code(pc), pc).value, slow.regs, mem) == Some(r.value)
  {
    hide ObjectsOf, Describes, DescribedRow, RestoreBy, ApplyTdep, SlowRestore, Ordinary, ShortcutExact, InObject;
    hide AbsRow, Standard;
    var o, pc := ObjectsOf(proc), PcOf(slow);
    DescribedLookUp(proc, pc, code(pc));
    var found := o.lookup(pc).found;
    assert code(pc).obj < |proc| by { ObjectExists(proc, pc, code(pc).obj); }
    var buf := proc[code(pc).obj].ehf.buf;
    assert ExprFree(AbsRow(buf, found.row)) by { OrdinaryIsPlain(AbsRow(buf, found.row), found.ret, slow.regs, mem); }
    OrdinaryIsExact(mem, buf, found, pc, fast.regs, slow.regs);
    RestoreRefines(sr, mem, buf, found.row, slow.regs);
    ShortcutIsRestore(sr, mem, found.row, pc, found.ret, fast.regs, slow.regs);
  }

  lemma ObjectExists(proc: Process, pc: Word, i: nat)
    requires InObject(proc, pc, i)
    ensures i < |proc|
  {
  }

  lemma OrdinaryIsPlain(row: TableRow, ret: nat, regs: seq<Word>, mem: Memory)
    requires Ordinary(row, ret, regs, mem)
    ensures ExprFree(row)
  {
  }

  /** Described code makes a chain of frames on which the shortcut is right, all of them reported. */
  lemma {:induction false} DescribedIsChain(
      proc: Process, code: Word -> Description, sr: Surroundings, mem: Memory, fast: Frame, slow: Frame, n: nat)
    requires WfFrame(fast) && WfFrame(slow) && WfSurroundings(sr)
    requires fast.callFrame == slow.callFrame && SameTriple(fast.regs, slow.regs)
    requires Described(proc, code, mem, slow, n)
    ensures var o := ObjectsOf(proc);
            Chain(CodeOf(o), mem, fast, n) && Reported(o, mem, fast, n)
    decreases n
  {
    hide ObjectsOf, Describes, DescribedRow, RestoreBy, ApplyTdep, SlowRestore, Ordinary, ShortcutExact, InObject;
    if n > 0 {
      DescribedStep(proc, code, sr, mem, fast, slow, n);
      var o, pc := ObjectsOf(proc), PcOf(fast);
      var d := o.lookup(pc).found;
      var a := ApplyTdep(fast.regs, Project(d.row, pc, d.ret), mem);
      var r := SlowRestore(sr, mem, d.row, slow.regs);
      DescribedIsChain(proc, code, sr, mem, Frame(a.regs, d.callFrame), Frame(r.value, d.callFrame), n - 1);
      assert CodeOf(o)(pc) == d;
    }
  }

  /** The full restores of the code walk where the abstract restores walk. */
  lemma {:induction false} WalksAgree(
      proc: Process, code: Word -> Description, sr: Surroundings, mem: Memory, f: Frame, n: nat, k: nat)
    requires WfFrame(f) && WfSurroundings(sr) && k <= n && Described(proc, code, mem, f, n)
    ensures var a := AbstractWalk(code, mem, f, k);
            a.Some? && SlowWalk(CodeOf(ObjectsOf(proc)), sr, mem, f, k) == a
    decreases n
  {
    hide ObjectsOf, Describes, DescribedRow, RestoreBy, SlowRestore, InObject, Standard, ShortcutExact;
    if k > 0 {
      DescribedStep(proc, code, sr, mem, f, f, n);
      var o, pc := ObjectsOf(proc), PcOf(f);
      var d := o.lookup(pc).found;
      assert CodeOf(o)(pc) == d;
      var r := SlowRestore(sr, mem, d.row, f.regs);
      WalksAgree(proc, code, sr, mem, Frame(r.value, d.callFrame), n - 1, k - 1);
    }
  }

  /** Entry `k` of a backtrace over encoded objects is the pc that `k` restores by the rows of the
      described tables reach. */
  lemma BacktraceIsAbstract(
      proc: Process, code: Word -> Description, w: World, sr: Surroundings, f: Frame, n: nat, max: nat, k: nat)
    requires WfFrame(f) && WfWorld(w) && WfSurroundings(sr) && k < n <= max
    requires Described(proc, code, w.mem, f, n)
    ensures var t := RunFresh(ObjectsOf(proc), w, f, max);
            var a := AbstractWalk(code, w.mem, f, k);
            k < |t.entries| && a.Some? && t.entries[k] == PcOf(a.value)
  {
    hide ObjectsOf, Described, RunFresh, AbstractWalk, SlowWalk, Chain, Reported;
    var o := ObjectsOf(proc);
    DescribedIsChain(proc, code, sr, w.mem, f, f, n);
    WalksAgree(proc, code, sr, w.mem, f, n, n);
    WalksAgree(proc, code, sr, w.mem, f, n, k);
    EntriesAreRestoredPcs(o, w, sr, f, f, n, max, k);
  }

  /** Every one of `n` entries is the pc that as many abstract restores reach. */
  ghost predicate AllAbstractPcs(code: Word -> Description, mem: Memory, f: Frame, n: nat, entries: seq<Word>)
    requires WfFrame(f)
  {
    && |entries| == n
    && forall k: nat :: k < n ==>
         var a := AbstractWalk(code, mem, f, k);
         a.Some? && entries[k] == PcOf(a.value)
  }

  /** And so are all entries of a backtrace through any cache that the life of the process can
      produce, if and only if its hits agree. */
  lemma CachedBacktraceIsAbstract(
      proc: Process, code: Word -> Description, w: World, sr: Surroundings, f: Frame, events: seq<Event>, n: nat)
    requires WfFrame(f) && WfWorld(w) && WfSurroundings(sr) && Described(proc, code, w.mem, f, n)
    requires forall k :: 0 <= k < |events| ==> WfEvent(events[k])
    ensures WfEntries(After(ObjectsOf(proc), map[], events))
    ensures var o := ObjectsOf(proc);
            var cache := After(o, map[], events);
            AllAbstractPcs(code, w.mem, f, n, RunCached(o, w, f, cache, n).entries) <==> HitsAgree(o, w, f, cache, n)
  {
    hide ObjectsOf, Described, RunCached, AbstractWalk, SlowWalk, Chain, Reported, HitsAgree, After;
    var o := ObjectsOf(proc);
    var cache := After(o, map[], events);
    HistoryKeepsCoherent(o, map[], events);
    CoherentIsWf(o, cache);
    DescribedIsChain(proc, code, sr, w.mem, f, f, n);
    WalksAgree(proc, code, sr, w.mem, f, n, n);
    CachedEntriesAreRestoredPcs(o, w, sr, f, cache, n);
    forall k: nat | k < n
      ensures SlowWalk(CodeOf(o), sr, w.mem, f, k) == AbstractWalk(code, w.mem, f, k)
    {
      WalksAgree(proc, code, sr, w.mem, f, n, k);
    }
  }

  // ----- how a backtrace ends -----

  /** A step in described code ends the backtrace at the bottom exactly when the row gives up the
      return address, whatever kind of row it is and whether or not memory can be read. */
  lemma StepEnds(proc: Process, d: Description, w: World, f: Frame)
    requires WfFrame(f) && WfWorld(w) && PcOf(f) != 0
    requires InObject(proc, PcOf(f), d.obj) && Describes(proc[d.obj], PcOf(f), d)
    ensures DescribedRow(d, PcOf(f)).Some? && d.img.header.retColumn < |DescribedRow(d, PcOf(f)).value.rules|
    ensures StepFresh(ObjectsOf(proc), w, f).code == Bottom <==>
            DescribedRow(d, PcOf(f)).value.rules[d.img.header.retColumn].Unrecoverable?
  {
    hide ObjectsOf, Describes, DescribedRow, ApplyTdep, SlowRestore, InObject, Standard, AbsRow;
    var pc := PcOf(f);
    DescribedLookUp(proc, pc, d);
    ObjectExists(proc, pc, d.obj);
    var found := ObjectsOf(proc).lookup(pc).found;
    GivesUp(proc[d.obj].ehf.buf, found.row, found.ret);
  }

  lemma GivesUp(buf: seq<Byte>, row: Row, i: nat)
    requires WfRow(row) && i < COLUMNS
    ensures |AbsRow(buf, row).rules| == COLUMNS
    ensures AbsRow(buf, row).rules[i].Unrecoverable? <==> row.regs[i].Nowhere?
  {
    hide BlockAt;
  }

  /** A step past the range that the FDE encodes finishes the backtrace, and no other step in such
      an object does. */
  lemma StepFinishes(proc: Process, i: nat, img: Image, startLoc: Word, w: World, f: Frame)
    requires WfFrame(f) && WfWorld(w) && PcOf(f) != 0 && InObject(proc, PcOf(f), i)
    requires Leads(proc[i], img.index, PcOf(f), img.fde) && HoldsFrames(proc[i].ehf, img)
    requires startLoc + img.fdeHeader.range < TWO64
    requires startLoc != 0 && Target(proc[i].ehf, PtrType(img), img.fdeHeader.start).Some?
    requires var start := Target(proc[i].ehf, PtrType(img), img.fdeHeader.start).value;
             startLoc == AdjustStart(proc[i], start, PtrType(img))
    ensures StepFresh(ObjectsOf(proc), w, f).code == Finished <==> PcOf(f) > startLoc + img.fdeHeader.range
  {
    hide ObjectsOf, LookUpIn, Leads, HoldsFrames, AdjustStart, Target, PtrType, SlowRestore, ApplyTdep, Standard;
    KnownExactly(proc, PcOf(f), i);
    LookUpPastEnd(proc[i], img, PcOf(f), startLoc);
  }

  /** The frame lies in described code whose row gives up the return address. */
  ghost predicate Outermost(proc: Process, d: Description, f: Frame)
    requires WfFrame(f)
  {
    && PcOf(f) != 0 && InObject(proc, PcOf(f), d.obj) && Describes(proc[d.obj], PcOf(f), d)
    && DescribedRow(d, PcOf(f)).Some?
    && d.img.header.retColumn < |DescribedRow(d, PcOf(f)).value.rules|
    && DescribedRow(d, PcOf(f)).value.rules[d.img.header.retColumn].Unrecoverable?
  }

  lemma {:induction false} RunEnds(
      proc: Process, code: Word -> Description, w: World, sr: Surroundings, fast: Frame, slow: Frame, n: nat, max: nat)
    requires WfFrame(fast) && WfFrame(slow) && WfWorld(w) && WfSurroundings(sr) && n < max
    requires fast.callFrame == slow.callFrame && SameTriple(fast.regs, slow.regs)
    requires Described(proc, code, w.mem, slow, n) && AbstractWalk(code, w.mem, slow, n).Some?
    requires var last := AbstractWalk(code, w.mem, slow, n).value; Outermost(proc, code(PcOf(last)), last)
    ensures var t := RunFresh(ObjectsOf(proc), w, fast, max);
            && |t.entries| == n + 1 && t.code == Some(Bottom)
            && t.entries[n] == PcOf(AbstractWalk(code, w.mem, slow, n).value)
    decreases n
  {
    hide ObjectsOf, Describes, DescribedRow, RestoreBy, ApplyTdep, SlowRestore, Ordinary, ShortcutExact, InObject;
    hide StepFresh, Chain, Reported, Standard, ExprFree;
    var o := ObjectsOf(proc);
    if n == 0 {
      StepEnds(proc, code(PcOf(slow)), w, fast);
    } else {
      DescribedStep(proc, code, sr, w.mem, fast, slow, n);
      DescribedIsChain(proc, code, sr, w.mem, fast, slow, n);
      ReportedStep(o, w, fast, n);
      var d := o.lookup(PcOf(fast)).found;
      var r := SlowRestore(sr, w.mem, d.row, slow.regs);
      RunEnds(proc, code, w, sr, StepFresh(o, w, fast).frame, Frame(r.value, d.callFrame), n - 1, max - 1);
    }
  }

  /** A whole backtrace: `n` ordinary frames and an outermost one. The entries are exactly the pcs of
      the abstract walk, the outermost included, and the caller is told 0. */
  lemma CompleteBacktrace(
      proc: Process, code: Word -> Description, w: World, sr: Surroundings, f: Frame, n: nat, max: nat)
    requires WfFrame(f) && WfWorld(w) && WfSurroundings(sr) && n < max
    requires Described(proc, code, w.mem, f, n) && AbstractWalk(code, w.mem, f, n).Some?
    requires var last := AbstractWalk(code, w.mem, f, n).value; Outermost(proc, code(PcOf(last)), last)
    ensures var t := RunFresh(ObjectsOf(proc), w, f, max);
            && |t.entries| == n + 1
            && (forall k: nat :: k <= n ==>
                  var a := AbstractWalk(code, w.mem, f, k); a.Some? && t.entries[k] == PcOf(a.value))
            && ReturnOf(max, t.code) == Returned(Continue)
  {
    hide ObjectsOf, Described, RunFresh, AbstractWalk, Outermost;
    RunEnds(proc, code, w, sr, f, f, n, max);
    var t := RunFresh(ObjectsOf(proc), w, f, max);
    forall k: nat | k <= n
      ensures var a := AbstractWalk(code, w.mem, f, k);
              a.Some? && k < |t.entries| && t.entries[k] == PcOf(a.value)
    {
      if k < n {
        BacktraceIsAbstract(proc, code, w, sr, f, n, max, k);
      }
    }
  }
}
