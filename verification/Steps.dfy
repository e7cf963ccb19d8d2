/** One unwind step and the whole backtrace, over any objects that answer look-ups, with and
    without the cache. */
module Steps {
  import opened Words
  import opened UserMemory
  import opened CfiState
  import opened Restore
  import Expression

  /** A failed look-up, one that goes on to read a null FDE, one whose program runs on outside its
      bytes, a pc past the end of its FDE, or a row. */
  datatype Lookup = Failed | NullFde | Astray | PastEnd | At(found: Found)

  /** A frame section mapped in the kernel. */
  datatype Mapped = Mapped(buf: seq<Byte>, base: Word)

  /** What a step asks of the loaded objects: whether a usable one covers a pc, what a fresh
      look-up gives there, and the section it comes from. */
  datatype Objects = Objects(known: Word -> bool, lookup: Word -> Lookup, section: Word -> Mapped)

  // ----- one step -----

  /** What a step meets outside the frame: the memory of the process, what uninitialised locals
      hold, and the registers the unwind began with. */
  datatype World = World(mem: Memory, junk: seq<Word>, junkValue: Word, stub: seq<Word>)

  predicate WfWorld(w: World) {
    |w.junk| == Expression.SLOTS && |w.stub| == COLUMNS
  }

  /** Return codes 0, 1, 2 and the negative ones; a kernel fault, which does not return; and a
      program that reads on outside its bytes, which is not followed further. */
  datatype Code = Continue | Finished | Bottom | Error | Fault | Lost

  /** The code and, when the run goes on, the caller's frame. */
  datatype Stepped = Stepped(code: Code, frame: Frame)

  type Entries = map<Word, Tdep>

  function SurroundingsOf(at: Mapped, w: World): Surroundings {
    Surroundings(at.buf, at.base, w.junk, w.junkValue)
  }

  /** After the shortcut's reads went through. */
  function Shortcut(a: Applied, e: Tdep, callFrame: nat): (r: Stepped)
  {
    Stepped(if e.last then Bottom else Continue, Frame(a.regs, callFrame))
  }

  /** The full restore, which must leave pc, sp and bp as they were at the very start. */
  function SlowPath(at: Mapped, w: World, d: Found, f: Frame): (r: Stepped)
    requires WfFrame(f) && WfWorld(w)
    ensures r.code.Continue? ==> WfFrame(r.frame)
  {
    if d.row.regs[d.ret].Nowhere? then Stepped(Bottom, f) else
    var r := SlowRestore(SurroundingsOf(at, w), w.mem, d.row, f.regs);
    if r.Faulted? then Stepped(Fault, f)
    else if r.Refused? || !SameTriple(r.value, w.stub) then Stepped(Error, f)
    else Stepped(Continue, Frame(r.value, f.callFrame))
  }

  /** Restoring by a looked-up row: the shortcut if the row allows it, the full restore if the row
      does not or the shortcut's reads fail. */
  function RowStep(at: Mapped, w: World, d: Found, pc: Word, f: Frame): (r: Stepped)
    requires WfFrame(f) && WfWorld(w)
    ensures r.code.Continue? ==> WfFrame(r.frame)
  {
    if !Standard(d.row) then SlowPath(at, w, d, f.(callFrame := d.callFrame)) else
    var e := Project(d.row, pc, d.ret);
    var a := ApplyTdep(f.regs, e, w.mem);
    if a.ok then Shortcut(a, e, d.callFrame) else SlowPath(at, w, d, Frame(a.regs, d.callFrame))
  }

  /** A step that finds nothing in the cache. */
  function MissStep(o: Objects, w: World, f: Frame): (r: Stepped)
    requires WfFrame(f) && WfWorld(w)
    ensures r.code.Continue? ==> WfFrame(r.frame)
  {
    var pc := PcOf(f);
    match o.lookup(pc)
    case Failed => Stepped(Error, f)
    case NullFde => Stepped(Fault, f)
    case Astray => Stepped(Lost, f)
    case PastEnd => Stepped(Finished, f)
    case At(d) => RowStep(o.section(pc), w, d, pc, f)
  }

  /** A step that finds the entry of its pc. */
  function HitStep(w: World, f: Frame, e: Tdep): (r: Stepped)
    requires WfFrame(f) && WfTdep(e)
    ensures r.code.Continue? ==> WfFrame(r.frame)
  {
    var a := ApplyTdep(f.regs, e, w.mem);
    if a.ok then Shortcut(a, e, f.callFrame) else Stepped(Error, f)
  }

  /** What a miss leaves in the cache. */
  function Stored(look: Lookup, pc: Word, cache: Entries): Entries {
    match look
    case At(d) => if Standard(d.row) && pc !in cache then cache[pc := Project(d.row, pc, d.ret)] else cache
    case _ => cache
  }

  ghost predicate WfEntries(cache: Entries) {
    forall pc :: pc in cache ==> WfTdep(cache[pc]) && cache[pc].pc == pc
  }

  /** `unwind_frame`, first without any cache. */
  function StepFresh(o: Objects, w: World, f: Frame): (r: Stepped)
    requires WfFrame(f) && WfWorld(w)
    ensures r.code.Continue? ==> WfFrame(r.frame)
  {
    if PcOf(f) == 0 || !o.known(PcOf(f)) then Stepped(Error, f) else MissStep(o, w, f)
  }

  function StepCached(o: Objects, w: World, f: Frame, cache: Entries): (r: Stepped)
    requires WfFrame(f) && WfWorld(w) && WfEntries(cache)
    ensures r.code.Continue? ==> WfFrame(r.frame)
  {
    if PcOf(f) == 0 || !o.known(PcOf(f)) then Stepped(Error, f)
    else if PcOf(f) in cache then HitStep(w, f, cache[PcOf(f)])
    else MissStep(o, w, f)
  }

  function CacheAfter(o: Objects, f: Frame, cache: Entries): (r: Entries)
    requires WfFrame(f)
  {
    if PcOf(f) == 0 || !o.known(PcOf(f)) || PcOf(f) in cache then cache
    else Stored(o.lookup(PcOf(f)), PcOf(f), cache)
  }

  lemma CacheAfterWf(o: Objects, f: Frame, cache: Entries)
    requires WfFrame(f) && WfEntries(cache)
    ensures WfEntries(CacheAfter(o, f, cache))
  {
  }

  // ----- the whole backtrace -----

  /** The entries written, the code of the last step (nothing if none was taken) and the cache
      left behind. */
  datatype Trace = Trace(entries: seq<Word>, code: Option<Code>, cache: Entries)

  /** What `unwind_full` returns: `-EINVAL`, whatever an uninitialised local holds, or the last
      code, 2 having become 0. */
  datatype Return = InvalidArgument | Uninitialised | Returned(code: Code)

  function ReturnOf(max: nat, code: Option<Code>): Return {
    if max == 0 then InvalidArgument else
    match code
    case None => Uninitialised
    case Some(c) => Returned(if c.Bottom? then Continue else c)
  }

  function WithEntry(pc: Word, code: Code, t: Trace): Trace {
    Trace([pc] + t.entries, if t.code.None? then Some(code) else t.code, t.cache)
  }

  ghost function RunCached(o: Objects, w: World, f: Frame, cache: Entries, max: nat): (t: Trace)
    requires WfFrame(f) && WfWorld(w) && WfEntries(cache)
    ensures |t.entries| <= max && WfEntries(t.cache)
    decreases max
  {
    if max == 0 || PcOf(f) == 0 then Trace([], None, cache) else
    var s := StepCached(o, w, f, cache);
    CacheAfterWf(o, f, cache);
    var next := CacheAfter(o, f, cache);
    if s.code.Continue? then WithEntry(PcOf(f), Continue, RunCached(o, w, s.frame, next, max - 1))
    else Trace([PcOf(f)], Some(s.code), next)
  }

  ghost function RunFresh(o: Objects, w: World, f: Frame, max: nat): (t: Trace)
    requires WfFrame(f) && WfWorld(w)
    ensures |t.entries| <= max
    decreases max
  {
    if max == 0 || PcOf(f) == 0 then Trace([], None, map[]) else
    var s := StepFresh(o, w, f);
    if s.code.Continue? then WithEntry(PcOf(f), Continue, RunFresh(o, w, s.frame, max - 1))
    else Trace([PcOf(f)], Some(s.code), map[])
  }

  /** A trace with entries and a code that came before it. */
  function Prepend(done: seq<Word>, code: Option<Code>, t: Trace): Trace {
    Trace(done + t.entries, if t.code.Some? then t.code else code, t.cache)
  }

  lemma PrependMore(done: seq<Word>, pc: Word, code: Option<Code>, t: Trace)
    ensures Prepend(done, code, WithEntry(pc, Continue, t)) == Prepend(done + [pc], Some(Continue), t)
  {
    assert done + ([pc] + t.entries) == done + [pc] + t.entries;
  }

  lemma RunUnfolds(o: Objects, w: World, f: Frame, cache: Entries, max: nat)
    requires WfFrame(f) && WfWorld(w) && WfEntries(cache)
    ensures WfEntries(CacheAfter(o, f, cache))
    ensures var t := RunCached(o, w, f, cache, max);
            if max == 0 || PcOf(f) == 0 then t == Trace([], None, cache) else
            var s := StepCached(o, w, f, cache);
            var next := CacheAfter(o, f, cache);
            if s.code.Continue? then t == WithEntry(PcOf(f), Continue, RunCached(o, w, s.frame, next, max - 1))
            else t == Trace([PcOf(f)], Some(s.code), next)
  {
    hide StepCached, CacheAfter, Wrap;
    CacheAfterWf(o, f, cache);
  }
}
