/** The unwinder on the loaded objects of a process: the look-up of a pc, and the methods for one
    step and for the whole backtrace. */
module Unwinder {
  import opened Words
  import opened CfiState
  import opened CfiInterpreter
  import opened FdeIndex
  import opened FrameHeaders
  import opened Restore
  import opened Steps
  import Cache

  /** The loaded objects of a process, in the order they are searched. */
  type Process = seq<Module>

  function ModuleFor(proc: Process, pc: Word): Option<Module> {
    if proc == [] then None
    else if proc[0].vmStart <= pc <= proc[0].vmEnd then Some(proc[0])
    else ModuleFor(proc[1..], pc)
  }

  // ----- a fresh look-up -----

  /** The column and offset that stand for no CFA yet. */
  const BAD_CFA: Cfa := RegOff(17, 1)

  /** The state the CIE program starts in. */
  function InitialState(c: CieInfo, startLoc: Word): (st: State)
    ensures Wf(st)
  {
    var st := Cleared().(codeAlign := c.codeAlign, dataAlign := c.dataAlign, loc := startLoc);
    SetCfa(st, BAD_CFA)
  }

  /** No CFA is one that no restore accepts: a column that does not exist, at an odd offset. */
  lemma NoCfaYet(c: CieInfo, startLoc: Word)
    ensures Current(InitialState(c, startLoc)).cfa == RegOff(17, 1)
  {
  }

  /** The two programs: the CIE's to its end, whose rules are kept for restore instructions,
      and the FDE's up to the pc. */
  function RunPrograms(m: Module, c: CieInfo, f: FdeInfo, startLoc: Word, pc: Word): (r: Outcome)
    ensures r.ok || r.strayed ==> Wf(r.st)
  {
    var cx := Context(m.ehf, c.ptrType);
    var first := RunProgram(cx, c.start, c.end, 0, InitialState(c, startLoc));
    if !first.ok then first else
    RunProgram(cx, f.start, f.end, pc, first.st.(cieRegs := Current(first.st).regs))
  }

  /** Ranges and the return column, then the programs. */
  function LookUpRow(m: Module, c: CieInfo, f: FdeInfo, pc: Word): Lookup
    requires c.callFrame <= 1
  {
    var startLoc := AdjustStart(m, f.startLoc, c.ptrType);
    var endLoc := Wrap(startLoc + f.locRange);
    if startLoc == 0 then Failed
    else if pc > endLoc then PastEnd
    else if c.retColumn >= COLUMNS then Failed
    else
      var r := RunPrograms(m, c, f, startLoc, pc);
      if r.strayed && !r.ok then Astray
      else if !r.ok || r.st.loc > endLoc then Failed
      else At(Found(Current(r.st), c.retColumn, c.callFrame))
  }

  /** Search, checks, parsing and both programs at a pc of a module. */
  function LookUpIn(m: Module, pc: Word): Lookup {
    var fde := FindFde(m, pc);
    if fde.Unselected? then NullFde
    else if fde.BadTable? || !CheckFde(m.ehf.buf, fde.found) then Failed else
    var cie := CieForFde(m.ehf.buf, fde.found);
    if cie.None? then Failed else
    var c := ParseCie(m.ehf, cie.value);
    if c.None? then Failed else
    var f := ParseFde(m.ehf, fde.found, c.value.ptrType, c.value.augLen);
    if f.None? then Failed else LookUpRow(m, c.value, f.value, pc)
  }

  /** The frame section is there and made of whole words. */
  predicate Usable(m: Module) {
    |m.ehf.buf| != 0 && |m.ehf.buf| % 4 == 0
  }

  function LookUp(proc: Process, pc: Word): Lookup {
    var m := ModuleFor(proc, pc);
    if m.Some? && Usable(m.value) then LookUpIn(m.value, pc) else Failed
  }

  /** The objects of a process, as a step meets them. */
  function ObjectsOf(proc: Process): Objects {
    Objects(
      (pc: Word) => ModuleFor(proc, pc).Some? && Usable(ModuleFor(proc, pc).value),
      (pc: Word) => LookUp(proc, pc),
      (pc: Word) => SectionOf(proc, pc))
  }

  function SectionOf(proc: Process, pc: Word): Mapped {
    var m := ModuleFor(proc, pc);
    if m.Some? then Mapped(m.value.ehf.buf, m.value.ehf.base) else Mapped([], 0)
  }

  // ----- the code itself -----

  /** Both programs on one state object. */
  method RunBoth(m: Module, c: CieInfo, f: FdeInfo, startLoc: Word, pc: Word)
    returns (ok: bool, strayed: bool, state: UnwindState)
    ensures fresh(state) && fresh(state.reg)
    ensures Outcome(ok, strayed, state.View()) == RunPrograms(m, c, f, startLoc, pc)
    ensures ok ==> state.Valid()
  {
    hide RunProgram;
    state := new UnwindState();
    state.codeAlign, state.dataAlign, state.loc := c.codeAlign, c.dataAlign, startLoc;
    assert state.View() == Cleared().(codeAlign := c.codeAlign, dataAlign := c.dataAlign, loc := startLoc);
    state.AssignCfa(BAD_CFA);
    var cx := Context(m.ehf, c.ptrType);
    ok, strayed := state.RunCfiProgram(cx, c.start, c.end, 0);
    if !ok {
      return;
    }
    state.cieRegs := state.reg[state.stackDepth].regs;
    ok, strayed := state.RunCfiProgram(cx, f.start, f.end, pc);
  }

  /** The part of `__unwind_frame` between the cache and the restore. */
  method FreshLookup(m: Module, pc: Word) returns (r: Lookup)
    ensures r == LookUpIn(m, pc)
  {
    hide RunPrograms, FindFde, CheckFde, CieForFde, ParseCie, ParseFde, AdjustStart;
    var fde := SearchFde(m, pc);
    if fde.Unselected? {
      return NullFde;
    }
    if fde.BadTable? || !CheckFde(m.ehf.buf, fde.found) {
      return Failed;
    }
    var cie := CieForFde(m.ehf.buf, fde.found);
    if cie.None? {
      return Failed;
    }
    var parsed := ParseFdeCie(m.ehf, fde.found, cie.value);
    if parsed.None? {
      return Failed;
    }
    var (c, f) := parsed.value;
    var startLoc := AdjustStart(m, f.startLoc, c.ptrType);
    if startLoc == 0 {
      return Failed;
    }
    var endLoc := Wrap(startLoc + f.locRange);
    if pc > endLoc {
      return PastEnd;
    }
    if c.retColumn >= COLUMNS {
      return Failed;
    }
    var ok, strayed, state := RunBoth(m, c, f, startLoc, pc);
    if strayed && !ok {
      return Astray;
    }
    if !ok || state.loc > endLoc {
      return Failed;
    }
    r := At(Found(state.reg[state.stackDepth], c.retColumn, c.callFrame));
  }

  /** The slow path of `__unwind_frame`. */
  method TakeSlowPath(at: Mapped, w: World, d: Found, frame: FrameInfo) returns (code: Code)
    requires frame.Valid() && WfWorld(w)
    modifies frame.reg
    ensures frame.Valid()
    ensures var s := SlowPath(at, w, d, old(frame.View()));
            code == s.code && (code.Continue? ==> frame.View() == s.frame)
  {
    hide SlowRestore;
    if d.row.regs[d.ret].Nowhere? {
      return Bottom;
    }
    var done := frame.RestoreRow(Surroundings(at.buf, at.base, w.junk, w.junkValue), w.mem, d.row);
    if done.Faulted? {
      return Fault;
    }
    if done.Refused? || !SameTriple(frame.reg[..], w.stub) {
      return Error;
    }
    code := Continue;
  }

  /** The rest of `__unwind_frame` once a row is found: remember a standard frame, restore. */
  method TakeRow(at: Mapped, w: World, d: Found, pc: Word, frame: FrameInfo, cache: Cache.UnwCache) returns (code: Code)
    requires frame.Valid() && WfWorld(w) && cache.Valid() && frame.reg as object != cache.bucket
    modifies frame, frame.reg, cache.bucket
    ensures frame.Valid() && cache.Valid()
    ensures var s := RowStep(at, w, d, pc, old(frame.View()));
            code == s.code && (code.Continue? ==> frame.View() == s.frame)
    ensures cache.View() == Stored(At(d), pc, old(cache.View()))
  {
    hide SlowPath, ApplyTdep;
    frame.callFrame := d.callFrame;
    if Standard(d.row) {
      var e := Project(d.row, pc, d.ret);
      cache.AddEntry(e);
      var ok := frame.ApplyState(e, w.mem);
      if ok {
        return if e.last then Bottom else Continue;
      }
    }
    code := TakeSlowPath(at, w, d, frame);
  }

  /** `__unwind_frame` after a miss: look up and restore. */
  method TakeMiss(proc: Process, m: Module, w: World, frame: FrameInfo, cache: Cache.UnwCache) returns (code: Code)
    requires frame.Valid() && WfWorld(w) && cache.Valid() && frame.reg as object != cache.bucket
    requires ModuleFor(proc, PcOf(frame.View())) == Some(m) && Usable(m)
    modifies frame, frame.reg, cache.bucket
    ensures frame.Valid() && cache.Valid()
    ensures var s := MissStep(ObjectsOf(proc), w, old(frame.View()));
            code == s.code && (code.Continue? ==> frame.View() == s.frame)
    ensures cache.View() == Stored(LookUp(proc, PcOf(old(frame.View()))), PcOf(old(frame.View())), old(cache.View()))
  {
    hide RowStep, LookUpIn, ModuleFor, Usable, Standard, Project;
    var pc := Wrap(frame.reg[PC_COLUMN] - frame.callFrame);
    var look := FreshLookup(m, pc);
    match look {
      case Failed => return Error;
      case NullFde => return Fault;
      case Astray => return Lost;
      case PastEnd => return Finished;
      case At(d) => code := TakeRow(Mapped(m.ehf.buf, m.ehf.base), w, d, pc, frame, cache);
    }
  }

  /** `kunw_mod_lookup`. */
  method FindModule(proc: Process, pc: Word) returns (r: Option<Module>)
    ensures r == ModuleFor(proc, pc)
  {
    var i := 0;
    while i < |proc|
      invariant i <= |proc|
      invariant ModuleFor(proc[i..], pc) == ModuleFor(proc, pc)
    {
      if pc >= proc[i].vmStart && pc <= proc[i].vmEnd {
        return Some(proc[i]);
      }
      assert proc[i..][1..] == proc[i + 1..];
      i := i + 1;
    }
    r := None;
  }

  /** No object is found exactly when none covers the pc. */
  lemma {:induction false} NoneCovers(proc: Process, pc: Word)
    ensures ModuleFor(proc, pc).None? <==> forall i :: 0 <= i < |proc| ==> !(proc[i].vmStart <= pc <= proc[i].vmEnd)
  {
    if proc != [] {
      NoneCovers(proc[1..], pc);
      assert forall i :: 0 < i < |proc| ==> proc[i] == proc[1..][i - 1];
      assert forall i :: 0 <= i < |proc| - 1 ==> proc[1..][i] == proc[i + 1];
    }
  }

  /** Which pcs a step can look up: those whose first covering object has a frame section of a
      whole, non-zero number of words. */
  lemma KnownExactly(proc: Process, pc: Word, i: nat)
    requires i < |proc| && proc[i].vmStart <= pc <= proc[i].vmEnd
    requires forall j :: 0 <= j < i ==> !(proc[j].vmStart <= pc <= proc[j].vmEnd)
    ensures ModuleFor(proc, pc) == Some(proc[i])
    ensures ObjectsOf(proc).known(pc) <==> |proc[i].ehf.buf| > 0 && |proc[i].ehf.buf| % 4 == 0
    ensures ObjectsOf(proc).known(pc) ==> ObjectsOf(proc).lookup(pc) == LookUpIn(proc[i], pc)
  {
    hide LookUpIn;
    FirstCovers(proc, pc, i);
  }

  /** The object found is the first that covers the pc. */
  lemma {:induction false} FirstCovers(proc: Process, pc: Word, i: nat)
    requires i < |proc| && proc[i].vmStart <= pc <= proc[i].vmEnd
    requires forall j :: 0 <= j < i ==> !(proc[j].vmStart <= pc <= proc[j].vmEnd)
    ensures ModuleFor(proc, pc) == Some(proc[i])
    decreases i
  {
    if i > 0 {
      assert forall j :: 0 <= j < i - 1 ==> proc[1..][j] == proc[j + 1];
      FirstCovers(proc[1..], pc, i - 1);
    }
  }

  /** `unwind_frame`. */
  method UnwindFrame(proc: Process, w: World, frame: FrameInfo, cache: Cache.UnwCache) returns (code: Code)
    requires frame.Valid() && WfWorld(w) && cache.Valid() && WfEntries(cache.View())
    requires frame.reg as object != cache.bucket
    modifies frame, frame.reg, cache.bucket
    ensures frame.Valid() && cache.Valid()
    ensures var s := StepCached(ObjectsOf(proc), w, old(frame.View()), old(cache.View()));
            code == s.code && (code.Continue? ==> frame.View() == s.frame)
    ensures cache.View() == CacheAfter(ObjectsOf(proc), old(frame.View()), old(cache.View()))
  {
    hide MissStep, Stored, ApplyTdep, LookUp, SectionOf, ModuleFor, Usable;
    var pc := Wrap(frame.reg[PC_COLUMN] - frame.callFrame);
    var m := FindModule(proc, pc);
    if pc == 0 || m.None? || !Usable(m.value) {
      return Error;
    }
    var entry := cache.FindEntry(pc);
    if entry.Some? {
      var ok := frame.ApplyState(entry.value, w.mem);
      if !ok {
        return Error;
      }
      return if entry.value.last then Bottom else Continue;
    }
    code := TakeMiss(proc, m.value, w, frame, cache);
  }

  /** `unwind_full`: how many entries it wrote, and what it returns. */
  method UnwindFull(proc: Process, w: World, frame: FrameInfo, cache: Cache.UnwCache, entries: array<Word>)
    returns (n: nat, ret: Return)
    requires frame.Valid() && WfWorld(w) && cache.Valid() && WfEntries(cache.View())
    requires frame.reg as object != cache.bucket && entries as object != cache.bucket && entries != frame.reg
    modifies frame, frame.reg, cache.bucket, entries
    ensures frame.Valid() && cache.Valid() && n <= entries.Length
    ensures var t := RunCached(ObjectsOf(proc), w, old(frame.View()), old(cache.View()), entries.Length);
            entries[..n] == t.entries && ret == ReturnOf(entries.Length, t.code) && cache.View() == t.cache
  {
    hide StepCached, CacheAfter, RunCached, Wrap, WfEntries, ObjectsOf;
    ghost var o := ObjectsOf(proc);
    n, ret := 0, Uninitialised;
    ghost var code: Option<Code> := None;
    ghost var goal := RunCached(o, w, frame.View(), cache.View(), entries.Length);
    if entries.Length == 0 {
      RunUnfolds(o, w, frame.View(), cache.View(), 0);
      return n, InvalidArgument;
    }
    while n < entries.Length
      invariant frame.Valid() && cache.Valid() && WfEntries(cache.View()) && n <= entries.Length
      invariant ret == ReturnOf(entries.Length, code)
      invariant goal == Prepend(entries[..n], code, RunCached(o, w, frame.View(), cache.View(), entries.Length - n))
    {
      ghost var f, c, max := frame.View(), cache.View(), entries.Length - n;
      RunUnfolds(o, w, f, c, max);
      var pc := Wrap(frame.reg[PC_COLUMN] - frame.callFrame);
      if pc == 0 {
        return;
      }
      ghost var before := entries[..n];
      entries[n] := pc;
      n := n + 1;
      assert entries[..n] == before + [pc];
      var step := UnwindFrame(proc, w, frame, cache);
      assert entries[..n] == before + [pc];
      ret := Returned(step);
      if step.Bottom? {
        return n, Returned(Continue);
      }
      if !step.Continue? {
        return;
      }
      PrependMore(before, pc, code, RunCached(o, w, frame.View(), cache.View(), max - 1));
      code := Some(step);
    }
    RunUnfolds(o, w, frame.View(), cache.View(), 0);
  }
}
