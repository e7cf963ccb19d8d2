/** Whole runs: the cache stays coherent, a cached run equals a run without a cache where it can,
    and both report the program counters that the full restore reaches. */
module Backtrace {
  import opened Words
  import opened UserMemory
  import opened CfiState
  import opened Restore
  import opened Steps
  import Unwinder

  // ----- coherence -----

  /** An entry is the projection of the row that a fresh look-up gives at its pc. */
  ghost predicate EntryCoherent(o: Objects, pc: Word, e: Tdep) {
    && o.known(pc) && o.lookup(pc).At?
    && var d := o.lookup(pc).found;
       Standard(d.row) && e == Project(d.row, pc, d.ret)
  }

  ghost predicate Coherent(o: Objects, cache: Entries) {
    forall pc :: pc in cache ==> EntryCoherent(o, pc, cache[pc])
  }

  lemma CoherentIsWf(o: Objects, cache: Entries)
    requires Coherent(o, cache)
    ensures WfEntries(cache)
  {
  }

  /** No unwind step, whatever frame and memory it meets, makes the cache incoherent. */
  lemma StepKeepsCoherent(o: Objects, f: Frame, cache: Entries)
    requires WfFrame(f) && Coherent(o, cache)
    ensures Coherent(o, CacheAfter(o, f, cache))
  {
    hide EntryCoherent;
    var pc := PcOf(f);
    var next := CacheAfter(o, f, cache);
    if next != cache {
      StoredIsCoherent(o, pc, cache);
      forall q | q in next
        ensures EntryCoherent(o, q, next[q])
      {
      }
    }
  }

  lemma StoredIsCoherent(o: Objects, pc: Word, cache: Entries)
    requires o.known(pc) && pc !in cache
    ensures var next := Stored(o.lookup(pc), pc, cache);
            next == cache || (pc in next && next == cache[pc := next[pc]] && EntryCoherent(o, pc, next[pc]))
  {
  }

  /** Everything that happens to a cache in its life. */
  datatype Event = Unwind(w: World, f: Frame) | Forget(pc: Word) | ForgetAll

  ghost predicate WfEvent(ev: Event) {
    ev.Unwind? ==> WfFrame(ev.f) && WfWorld(ev.w)
  }

  ghost function After(o: Objects, cache: Entries, events: seq<Event>): Entries
    requires forall k :: 0 <= k < |events| ==> WfEvent(events[k])
    decreases |events|
  {
    if events == [] then cache else
    assert WfEvent(events[0]);
    var next := match events[0]
      case Unwind(w, f) => CacheAfter(o, f, cache)
      case Forget(pc) => cache - {pc}
      case ForgetAll => map[];
    After(o, next, events[1..])
  }

  lemma {:induction false} HistoryKeepsCoherent(o: Objects, cache: Entries, events: seq<Event>)
    requires forall k :: 0 <= k < |events| ==> WfEvent(events[k])
    requires Coherent(o, cache)
    ensures Coherent(o, After(o, cache, events))
    decreases |events|
  {
    hide CacheAfter, EntryCoherent;
    if events != [] {
      match events[0] {
        case Unwind(w, f) =>
          StepKeepsCoherent(o, f, cache);
          HistoryKeepsCoherent(o, CacheAfter(o, f, cache), events[1..]);
        case Forget(pc) =>
          HistoryKeepsCoherent(o, cache - {pc}, events[1..]);
        case ForgetAll =>
          HistoryKeepsCoherent(o, map[], events[1..]);
      }
    }
  }

  /** After any history every entry is what a fresh search, parse and two program runs give at
      its pc, and it ends the backtrace only if the return column is not the pc column. */
  lemma CacheCoherent(o: Objects, events: seq<Event>, pc: Word)
    requires forall k :: 0 <= k < |events| ==> WfEvent(events[k])
    ensures var cache := After(o, map[], events);
            pc in cache ==>
              && EntryCoherent(o, pc, cache[pc])
              && (o.lookup(pc).found.ret == PC_COLUMN ==> !cache[pc].last)
  {
    hide After;
    HistoryKeepsCoherent(o, map[], events);
  }

  // ----- one step with and without the entry -----

  /** When the shortcut's reads go through, a hit and a miss at the same pc give the same code,
      and the same frame exactly when the frame's `call_frame` is already the CIE's. */
  lemma HitAgainstMiss(o: Objects, w: World, f: Frame, cache: Entries)
    requires WfFrame(f) && WfWorld(w) && Coherent(o, cache) && WfEntries(cache)
    requires PcOf(f) in cache && PcOf(f) != 0 && ApplyTdep(f.regs, cache[PcOf(f)], w.mem).ok
    ensures var hit, miss := StepCached(o, w, f, cache), StepFresh(o, w, f);
            var d := o.lookup(PcOf(f)).found;
            && hit.code == miss.code && hit.frame.regs == miss.frame.regs
            && hit.frame.callFrame == f.callFrame && miss.frame.callFrame == d.callFrame
            && (hit == miss <==> f.callFrame == d.callFrame)
  {
    hide ApplyTdep, SlowPath;
    assert EntryCoherent(o, PcOf(f), cache[PcOf(f)]);
  }

  // ----- transparency over whole runs -----

  /** The hits that the next `n` entries of the run without a cache would meet, the cache growing
      as it goes. Each must find `call_frame` already at the CIE's value; where the shortcut's
      reads fail, which ends the cached run, the frame must be the outermost. The last entry is
      written before its step, so that step does not matter. */
  ghost predicate HitsAgree(o: Objects, w: World, f: Frame, cache: Entries, n: nat)
    requires WfFrame(f) && WfWorld(w) && WfEntries(cache)
    decreases n
  {
    n > 1 && PcOf(f) != 0 && StepFresh(o, w, f).code.Continue? ==>
      var s := StepFresh(o, w, f);
      CacheAfterWf(o, f, cache);
      && (PcOf(f) in cache ==>
            if ApplyTdep(f.regs, cache[PcOf(f)], w.mem).ok
            then o.lookup(PcOf(f)).found.callFrame == f.callFrame else PcOf(s.frame) == 0)
      && HitsAgree(o, w, s.frame, CacheAfter(o, f, cache), n - 1)
  }

  /** Wherever the run without a cache meets a standard frame, the shortcut's reads go through. */
  ghost predicate Readable(o: Objects, w: World, f: Frame, n: nat)
    requires WfFrame(f) && WfWorld(w)
    decreases n
  {
    n > 0 && PcOf(f) != 0 ==>
      && (o.lookup(PcOf(f)).At? && Standard(o.lookup(PcOf(f)).found.row) ==>
            var d := o.lookup(PcOf(f)).found;
            ApplyTdep(f.regs, Project(d.row, PcOf(f), d.ret), w.mem).ok)
      && (StepFresh(o, w, f).code.Continue? ==> Readable(o, w, StepFresh(o, w, f).frame, n - 1))
  }

  /** Runs that start at different pcs report different entries. */
  lemma DifferentStarts(o: Objects, w: World, f: Frame, g: Frame, cache: Entries, n: nat)
    requires WfFrame(f) && WfFrame(g) && WfWorld(w) && WfEntries(cache)
    requires n > 0 && PcOf(f) != PcOf(g)
    ensures RunCached(o, w, f, cache, n).entries != RunFresh(o, w, g, n).entries
  {
    hide StepCached, StepFresh, CacheAfter, Wrap;
    var a, b := RunCached(o, w, f, cache, n).entries, RunFresh(o, w, g, n).entries;
    if PcOf(f) != 0 && PcOf(g) != 0 {
      assert a[0] == PcOf(f) && b[0] == PcOf(g);
    }
  }

  lemma SameTail(pc: Word, s: seq<Word>, t: seq<Word>)
    ensures [pc] + s == [pc] + t <==> s == t
  {
    assert ([pc] + s)[1..] == s && ([pc] + t)[1..] == t;
  }

  /** A cached run from any coherent cache reports the entries of the run without a cache if and
      only if its hits agree; then, with readable memory, it ends with the same code too. */
  lemma {:induction false} RunTransparent(o: Objects, w: World, f: Frame, cache: Entries, max: nat)
    requires WfFrame(f) && WfWorld(w) && Coherent(o, cache) && WfEntries(cache)
    ensures var a, b := RunCached(o, w, f, cache, max), RunFresh(o, w, f, max);
            && (a.entries == b.entries <==> HitsAgree(o, w, f, cache, max))
            && (a.entries == b.entries && Readable(o, w, f, max) ==> a.code == b.code)
    decreases max
  {
    hide StepCached, StepFresh, CacheAfter, ApplyTdep, Coherent;
    if max > 0 && PcOf(f) != 0 {
      StepKeepsCoherent(o, f, cache);
      CacheAfterWf(o, f, cache);
      var s, c, next := StepFresh(o, w, f), StepCached(o, w, f, cache), CacheAfter(o, f, cache);
      HitCases(o, w, f, cache);
      if s == c && s.code.Continue? {
        RunTransparent(o, w, s.frame, next, max - 1);
      } else if c.code.Continue? && max > 1 {
        DifferentStarts(o, w, c.frame, s.frame, next, max - 1);
      }
      if s.code.Continue? && c.code.Continue? {
        SameTail(PcOf(f), RunCached(o, w, c.frame, next, max - 1).entries, RunFresh(o, w, s.frame, max - 1).entries);
      }
    }
  }

  /** How a step through a coherent cache can compare with one that has no cache. */
  lemma HitCases(o: Objects, w: World, f: Frame, cache: Entries)
    requires WfFrame(f) && WfWorld(w) && Coherent(o, cache) && WfEntries(cache) && PcOf(f) != 0
    ensures var s, c := StepFresh(o, w, f), StepCached(o, w, f, cache);
            if PcOf(f) !in cache then s == c else
            && o.lookup(PcOf(f)).At? && Standard(o.lookup(PcOf(f)).found.row)
            && var d := o.lookup(PcOf(f)).found;
               && cache[PcOf(f)] == Project(d.row, PcOf(f), d.ret)
               && if ApplyTdep(f.regs, cache[PcOf(f)], w.mem).ok
                  then
                    && s.code == c.code && (s == c <==> d.callFrame == f.callFrame)
                    && (s != c && s.code.Continue? ==> PcOf(s.frame) != PcOf(c.frame))
                  else c.code == Error
  {
    hide ApplyTdep, MissStep;
    if PcOf(f) in cache {
      assert EntryCoherent(o, PcOf(f), cache[PcOf(f)]);
      if ApplyTdep(f.regs, cache[PcOf(f)], w.mem).ok {
        HitAgainstMiss(o, w, f, cache);
      }
    }
  }

  /** From any cache that the life of a process can produce. */
  lemma CacheTransparent(o: Objects, w: World, f: Frame, events: seq<Event>, max: nat)
    requires WfFrame(f) && WfWorld(w)
    requires forall k :: 0 <= k < |events| ==> WfEvent(events[k])
    ensures WfEntries(After(o, map[], events))
    ensures var cache := After(o, map[], events);
            var a, b := RunCached(o, w, f, cache, max), RunFresh(o, w, f, max);
            && (a.entries == b.entries <==> HitsAgree(o, w, f, cache, max))
            && (a.entries == b.entries && Readable(o, w, f, max) ==> a.code == b.code)
  {
    hide RunCached, RunFresh, Readable, HitsAgree, After;
    var cache := After(o, map[], events);
    HistoryKeepsCoherent(o, map[], events);
    CoherentIsWf(o, cache);
    RunTransparent(o, w, f, cache, max);
  }

  // ----- ordinary calls -----

  /** The run without a cache meets only standard frames of ordinary calls, with readable memory. */
  ghost predicate OrdinaryCalls(o: Objects, w: World, f: Frame, n: nat)
    requires WfFrame(f) && WfWorld(w)
    decreases n
  {
    n > 0 && PcOf(f) != 0 ==>
      && (o.lookup(PcOf(f)).At? ==>
            var d := o.lookup(PcOf(f)).found;
            && d.callFrame == 1
            && Standard(d.row) && ApplyTdep(f.regs, Project(d.row, PcOf(f), d.ret), w.mem).ok)
      && (StepFresh(o, w, f).code.Continue? ==> OrdinaryCalls(o, w, StepFresh(o, w, f).frame, n - 1))
  }

  /** Once `call_frame` is 1 every hit on the way agrees. */
  lemma {:induction false} OrdinaryAgree(o: Objects, w: World, f: Frame, cache: Entries, n: nat)
    requires WfFrame(f) && WfWorld(w) && Coherent(o, cache) && WfEntries(cache)
    requires f.callFrame == 1 && OrdinaryCalls(o, w, f, n)
    ensures HitsAgree(o, w, f, cache, n)
    decreases n
  {
    hide ApplyTdep, StepFresh, CacheAfter, Coherent;
    if n > 1 && PcOf(f) != 0 && StepFresh(o, w, f).code.Continue? {
      OrdinaryStep(o, w, f, cache, n);
      StepKeepsCoherent(o, f, cache);
      CacheAfterWf(o, f, cache);
      OrdinaryAgree(o, w, StepFresh(o, w, f).frame, CacheAfter(o, f, cache), n - 1);
    }
  }

  lemma OrdinaryStep(o: Objects, w: World, f: Frame, cache: Entries, n: nat)
    requires WfFrame(f) && WfWorld(w) && Coherent(o, cache) && WfEntries(cache)
    requires n > 0 && PcOf(f) != 0 && OrdinaryCalls(o, w, f, n)
    ensures StepFresh(o, w, f).code.Continue? ==>
              o.lookup(PcOf(f)).At? && StepFresh(o, w, f).frame.callFrame == 1
    ensures PcOf(f) in cache ==>
              && o.lookup(PcOf(f)).At? && ApplyTdep(f.regs, cache[PcOf(f)], w.mem).ok
              && (StepFresh(o, w, f).code.Continue? <==> !cache[PcOf(f)].last)
  {
    hide ApplyTdep, SlowPath;
    if PcOf(f) in cache {
      assert EntryCoherent(o, PcOf(f), cache[PcOf(f)]);
    }
  }

  /** A backtrace over ordinary calls is the one without a cache if and only if the caller started
      with `call_frame` 1, or the first pc is not cached, or nothing comes after the first entry.
      All of it can be seen before the call. */
  lemma OrdinaryTransparent(o: Objects, w: World, f: Frame, cache: Entries, max: nat)
    requires WfFrame(f) && WfWorld(w) && Coherent(o, cache) && WfEntries(cache)
    requires OrdinaryCalls(o, w, f, max)
    ensures RunCached(o, w, f, cache, max).entries == RunFresh(o, w, f, max).entries <==>
            (max < 2 || PcOf(f) == 0 || f.callFrame == 1 || PcOf(f) !in cache || cache[PcOf(f)].last)
  {
    hide ApplyTdep, StepFresh, CacheAfter, Coherent, RunCached, RunFresh;
    RunTransparent(o, w, f, cache, max);
    if f.callFrame == 1 {
      OrdinaryAgree(o, w, f, cache, max);
    } else if max >= 2 && PcOf(f) != 0 {
      OrdinaryStep(o, w, f, cache, max);
      if StepFresh(o, w, f).code.Continue? {
        StepKeepsCoherent(o, f, cache);
        CacheAfterWf(o, f, cache);
        OrdinaryAgree(o, w, StepFresh(o, w, f).frame, CacheAfter(o, f, cache), max - 1);
      }
    }
  }

  /** `do_current_unwind` starts with `call_frame` 0: after any history of the cache, a backtrace of
      two or more ordinary calls is right if and only if its first pc is not cached. */
  lemma CurrentUnwindTransparent(
      proc: Unwinder.Process, w: World, f: Frame, events: seq<Event>, max: nat)
    requires WfFrame(f) && WfWorld(w) && f.callFrame == 0 && PcOf(f) != 0 && max >= 2
    requires OrdinaryCalls(Unwinder.ObjectsOf(proc), w, f, max)
    requires StepFresh(Unwinder.ObjectsOf(proc), w, f).code.Continue?
    requires forall k :: 0 <= k < |events| ==> WfEvent(events[k])
    ensures WfEntries(After(Unwinder.ObjectsOf(proc), map[], events))
    ensures var o := Unwinder.ObjectsOf(proc);
            var cache := After(o, map[], events);
            RunCached(o, w, f, cache, max).entries == RunFresh(o, w, f, max).entries <==> PcOf(f) !in cache
  {
    hide After, StepFresh, RunCached, RunFresh, OrdinaryCalls, Unwinder.LookUp;
    var o := Unwinder.ObjectsOf(proc);
    var cache := After(o, map[], events);
    HistoryKeepsCoherent(o, map[], events);
    CoherentIsWf(o, cache);
    OrdinaryTransparent(o, w, f, cache, max);
    OrdinaryStep(o, w, f, cache, max);
  }

  // ----- where transparency fails -----

  /** Two traces agree on the first entry and differ by one on the second. */
  predicate SecondShifted(a: Trace, b: Trace) {
    && |a.entries| >= 2 && |b.entries| >= 2
    && a.entries[0] == b.entries[0] && a.entries[1] == (b.entries[1] as int) + 1
  }

  /** `do_current_unwind` starts with `call_frame` 0. If the first pc is cached and its frame is
      an ordinary call, the second entry comes out one higher than without the cache. */
  lemma FirstHitShiftsSecondEntry(o: Objects, w: World, f: Frame, cache: Entries, max: nat)
    requires WfFrame(f) && WfWorld(w) && Coherent(o, cache) && WfEntries(cache) && max >= 2
    requires f.callFrame == 0 && PcOf(f) != 0 && PcOf(f) in cache && !cache[PcOf(f)].last
    requires o.lookup(PcOf(f)).At? && o.lookup(PcOf(f)).found.callFrame == 1
    requires var a := ApplyTdep(f.regs, cache[PcOf(f)], w.mem); a.ok && a.regs[PC_COLUMN] > 1
    ensures SecondShifted(RunCached(o, w, f, cache, max), RunFresh(o, w, f, max))
  {
    hide StepCached, StepFresh, CacheAfter, ApplyTdep;
    HitAgainstMiss(o, w, f, cache);
    ShortcutContinues(o, w, f, cache);
    var hit, miss := StepCached(o, w, f, cache), StepFresh(o, w, f);
    StepKeepsCoherent(o, f, cache);
    CacheAfterWf(o, f, cache);
    var next := CacheAfter(o, f, cache);
    assert PcOf(hit.frame) == PcOf(miss.frame) + 1;
    assert RunCached(o, w, hit.frame, next, max - 1).entries[0] == PcOf(hit.frame);
    assert RunFresh(o, w, miss.frame, max - 1).entries[0] == PcOf(miss.frame);
  }

  lemma ShortcutContinues(o: Objects, w: World, f: Frame, cache: Entries)
    requires WfFrame(f) && WfWorld(w) && Coherent(o, cache) && WfEntries(cache)
    requires PcOf(f) != 0 && PcOf(f) in cache
    requires ApplyTdep(f.regs, cache[PcOf(f)], w.mem).ok && !cache[PcOf(f)].last
    ensures var s := StepCached(o, w, f, cache);
            s.code.Continue? && s.frame.regs == ApplyTdep(f.regs, cache[PcOf(f)], w.mem).regs
  {
    hide ApplyTdep, MissStep;
    assert EntryCoherent(o, PcOf(f), cache[PcOf(f)]);
  }

  /** So the same backtrace taken twice from an empty cache disagrees with itself. */
  lemma SecondRunDiffers(o: Objects, w: World, f: Frame, max: nat, first: Trace)
    requires WfFrame(f) && WfWorld(w) && max >= 2 && f.callFrame == 0 && PcOf(f) != 0
    requires first == RunCached(o, w, f, map[], max)
    requires o.known(PcOf(f)) && o.lookup(PcOf(f)).At?
    requires var d := o.lookup(PcOf(f)).found;
             && Standard(d.row) && d.callFrame == 1 && !d.row.regs[d.ret].Nowhere?
             && ApplyTdep(f.regs, Project(d.row, PcOf(f), d.ret), w.mem).ok
             && ApplyTdep(f.regs, Project(d.row, PcOf(f), d.ret), w.mem).regs[PC_COLUMN] > 1
    ensures WfEntries(first.cache)
    ensures SecondShifted(RunCached(o, w, f, first.cache, max), first)
  {
    hide StepFresh, CacheAfter, ApplyTdep, StepCached;
    var empty: Entries := map[];
    var pc := PcOf(f);
    var after := CacheAfter(o, f, empty);
    ColdStep(o, w, f);
    var s := StepFresh(o, w, f);
    CacheAfterWf(o, f, empty);
    StepKeepsCoherent(o, f, empty);
    CacheGrows(o, w, s.frame, after, max - 1, pc);
    assert first.entries[1] == PcOf(s.frame);
    FirstHitShiftsSecondEntry(o, w, f, first.cache, max);
    assert RunFresh(o, w, f, max).entries[1] == PcOf(s.frame);
  }

  lemma ColdStep(o: Objects, w: World, f: Frame)
    requires WfFrame(f) && WfWorld(w) && PcOf(f) != 0 && o.known(PcOf(f)) && o.lookup(PcOf(f)).At?
    requires var d := o.lookup(PcOf(f)).found;
             && Standard(d.row) && !d.row.regs[d.ret].Nowhere?
             && ApplyTdep(f.regs, Project(d.row, PcOf(f), d.ret), w.mem).ok
    ensures var d := o.lookup(PcOf(f)).found;
            var e := Project(d.row, PcOf(f), d.ret);
            var s := StepFresh(o, w, f);
            && StepCached(o, w, f, map[]) == s && s.code.Continue?
            && s.frame == Frame(ApplyTdep(f.regs, e, w.mem).regs, d.callFrame)
            && CacheAfter(o, f, map[]) == map[PcOf(f) := e]
  {
    hide ApplyTdep, SlowPath;
  }

  /** A run only ever adds to the cache. */
  lemma {:induction false} CacheGrows(o: Objects, w: World, f: Frame, cache: Entries, max: nat, pc: Word)
    requires WfFrame(f) && WfWorld(w) && WfEntries(cache) && Coherent(o, cache) && pc in cache
    ensures var c := RunCached(o, w, f, cache, max).cache;
            Coherent(o, c) && pc in c && c[pc] == cache[pc]
    decreases max
  {
    hide StepCached, CacheAfter, EntryCoherent;
    if max > 0 && PcOf(f) != 0 {
      StepGrows(o, f, cache, pc);
      StepKeepsCoherent(o, f, cache);
      CacheAfterWf(o, f, cache);
      var s := StepCached(o, w, f, cache);
      if s.code.Continue? {
        CacheGrows(o, w, s.frame, CacheAfter(o, f, cache), max - 1, pc);
      }
    }
  }

  lemma StepGrows(o: Objects, f: Frame, cache: Entries, pc: Word)
    requires WfFrame(f) && pc in cache
    ensures var c := CacheAfter(o, f, cache); pc in c && c[pc] == cache[pc]
  {
  }

  // ----- what the entries are -----

  /** Rows as the full restore meets them; a pc without one gets a row that restores nothing. */
  function FoundAt(o: Objects, pc: Word): Found {
    if o.lookup(pc).At? then o.lookup(pc).found
    else Found(Row(RegOff(0, 0), seq(COLUMNS, _ => Same)), 0, 0)
  }

  ghost function CodeOf(o: Objects): Word -> Found {
    (pc: Word) => FoundAt(o, pc)
  }

  /** The next `n` frames have pcs that are not 0 and standard rows whose reads go through, and none
      is the last. */
  ghost predicate Reported(o: Objects, mem: Memory, f: Frame, n: nat)
    requires WfFrame(f)
    decreases n
  {
    n > 0 ==>
      && PcOf(f) != 0 && o.known(PcOf(f)) && o.lookup(PcOf(f)).At?
      && var d := o.lookup(PcOf(f)).found;
         && Standard(d.row) && !d.row.regs[d.ret].Nowhere?
         && var a := ApplyTdep(f.regs, Project(d.row, PcOf(f), d.ret), mem);
            a.ok && Reported(o, mem, Frame(a.regs, d.callFrame), n - 1)
  }

  /** Entry `k` of a run is the pc that `k` shortcuts reach. */
  lemma {:induction false} EntriesAreWalkedPcs(o: Objects, w: World, f: Frame, n: nat, max: nat, k: nat)
    requires WfFrame(f) && WfWorld(w) && k < n <= max && Reported(o, w.mem, f, n)
    ensures var t := RunFresh(o, w, f, max);
            var r := FastWalk(CodeOf(o), w.mem, f, k);
            k < |t.entries| && r.Some? && t.entries[k] == PcOf(r.value)
    decreases n
  {
    hide StepFresh, ApplyTdep;
    ReportedStep(o, w, f, n);
    if k > 0 {
      EntriesAreWalkedPcs(o, w, StepFresh(o, w, f).frame, n - 1, max - 1, k - 1);
    }
  }

  lemma ReportedStep(o: Objects, w: World, f: Frame, n: nat)
    requires WfFrame(f) && WfWorld(w) && n > 0 && Reported(o, w.mem, f, n)
    ensures var d := o.lookup(PcOf(f)).found;
            var a := ApplyTdep(f.regs, Project(d.row, PcOf(f), d.ret), w.mem);
            StepFresh(o, w, f) == Stepped(Continue, Frame(a.regs, d.callFrame))
  {
    hide ApplyTdep, SlowPath;
  }

  /** Where the shortcut is right on every frame and the full restore gets as far, entry `k` is also
      the pc that `k` full, rule-by-rule restores reach. */
  lemma EntriesAreRestoredPcs(
      o: Objects, w: World, sr: Surroundings, f: Frame, slow: Frame, n: nat, max: nat, k: nat)
    requires WfFrame(f) && WfFrame(slow) && WfWorld(w) && WfSurroundings(sr) && k < n <= max
    requires f.callFrame == slow.callFrame && SameTriple(f.regs, slow.regs)
    requires Reported(o, w.mem, f, n) && Chain(CodeOf(o), w.mem, f, n)
    requires SlowWalk(CodeOf(o), sr, w.mem, slow, n).Some?
    ensures var t := RunFresh(o, w, f, max);
            var r := SlowWalk(CodeOf(o), sr, w.mem, slow, k);
            k < |t.entries| && r.Some? && t.entries[k] == PcOf(r.value)
  {
    hide RunFresh, FastWalk, SlowWalk, Chain, Reported;
    EntriesAreWalkedPcs(o, w, f, n, max, k);
    FastSimulatesSlow(CodeOf(o), sr, w.mem, f, slow, n);
    assert AgreeAt(CodeOf(o), sr, w.mem, f, slow, k);
  }

  /** Every one of `n` entries is the pc that as many full restores reach. */
  ghost predicate AllRestoredPcs(o: Objects, w: World, sr: Surroundings, f: Frame, n: nat, entries: seq<Word>)
    requires WfFrame(f) && WfSurroundings(sr)
  {
    && |entries| == n
    && forall k: nat :: k < n ==>
         var r := SlowWalk(CodeOf(o), sr, w.mem, f, k);
         r.Some? && entries[k] == PcOf(r.value)
  }

  /** The same entries come out of the fast, cached run if and only if its hits agree. */
  lemma CachedEntriesAreRestoredPcs(o: Objects, w: World, sr: Surroundings, f: Frame, cache: Entries, n: nat)
    requires WfFrame(f) && WfWorld(w) && WfSurroundings(sr) && Coherent(o, cache) && WfEntries(cache)
    requires Reported(o, w.mem, f, n) && Chain(CodeOf(o), w.mem, f, n)
    requires SlowWalk(CodeOf(o), sr, w.mem, f, n).Some?
    ensures AllRestoredPcs(o, w, sr, f, n, RunCached(o, w, f, cache, n).entries) <==> HitsAgree(o, w, f, cache, n)
  {
    hide RunCached, RunFresh, SlowWalk, Chain, Reported, Coherent, HitsAgree;
    RunTransparent(o, w, f, cache, n);
    var t := RunFresh(o, w, f, n);
    forall k: nat | k < n
      ensures var r := SlowWalk(CodeOf(o), sr, w.mem, f, k);
              k < |t.entries| && r.Some? && t.entries[k] == PcOf(r.value)
    {
      EntriesAreRestoredPcs(o, w, sr, f, f, n, n, k);
    }
    if n > 0 {
      EntriesAreRestoredPcs(o, w, sr, f, f, n, n, n - 1);
    }
  }

  // ----- the objects of a process -----

  /** For the loaded objects of a process: after any history, a cached entry is the projection of
      the row that search, parsing and both programs give at its pc in the object that covers it. */
  lemma ProcessCacheCoherent(proc: Unwinder.Process, events: seq<Event>, pc: Word)
    requires forall k :: 0 <= k < |events| ==> WfEvent(events[k])
    ensures var cache := After(Unwinder.ObjectsOf(proc), map[], events);
            var m := Unwinder.ModuleFor(proc, pc);
            pc in cache ==>
              && m.Some? && Unwinder.LookUpIn(m.value, pc).At?
              && var d := Unwinder.LookUpIn(m.value, pc).found;
                 && Standard(d.row) && cache[pc] == Project(d.row, pc, d.ret)
                 && (d.ret == PC_COLUMN ==> !cache[pc].last)
  {
    hide After, Unwinder.LookUpIn;
    CacheCoherent(Unwinder.ObjectsOf(proc), events, pc);
  }
}
