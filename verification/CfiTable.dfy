/** Stopping the interpreter at a pc is looking the pc up in the table that the whole program
    describes (section 6.4.1 of DWARF 4). */
module CfiTable {
  import opened Words
  import opened Leb128
  import opened CfiState
  import opened CfiInterpreter

  /** A row of the table and the first location it holds for. */
  datatype Entry<R> = Entry(loc: Word, row: R)

  predicate IsSetLoc(buf: seq<Byte>, cur: nat) {
    ByteAt(buf, cur) == CFA_SET_LOC
  }

  predicate IsAdvance(buf: seq<Byte>, cur: nat) {
    var b := ByteAt(buf, cur);
    b / 64 == 1 || CFA_ADVANCE_LOC1 <= b <= CFA_ADVANCE_LOC4
  }

  /** How far an instruction moves the location, before the code alignment factor. */
  function Delta(buf: seq<Byte>, cur: nat): nat {
    var b := ByteAt(buf, cur);
    if b / 64 == 1 then b % 64
    else if b == CFA_ADVANCE_LOC1 then ByteAt(buf, cur + 1)
    else if b == CFA_ADVANCE_LOC2 then U16At(buf, cur + 1)
    else if b == CFA_ADVANCE_LOC4 then U32At(buf, cur + 1)
    else 0
  }

  /** The table of the rest of a program: a row is closed when the location moves on. */
  ghost function Table(cx: Context, cur: nat, end: nat, st: State): (t: seq<Entry<Row>>)
    requires Wf(st)
    ensures t != [] && t[0].loc == st.loc
    decreases end - cur
  {
    var here := Entry(st.loc, Current(st));
    if cur >= end then [here] else
      var s := Exec(cx, cur, end, st);
      if !s.ok || s.cur > end then [here]
      else if s.st.loc != st.loc then [here] + Table(cx, s.cur, end, s.st)
      else Table(cx, s.cur, end, s.st)
  }

  function Locs<R>(t: seq<Entry<R>>): (r: seq<Word>)
    ensures |r| == |t|
  {
    seq(|t|, k requires 0 <= k < |t| => t[k].loc)
  }

  /** The last row, in table order, at or before `pc`. */
  function RowAt<R>(t: seq<Entry<R>>, pc: Word): Option<R> {
    match LastAtOrBefore(Locs(t), pc)
    case None => None
    case Some(k) => Some(t[k].row)
  }

  ghost predicate StrictlyIncreasing(t: seq<Entry<Row>>) {
    forall i, j :: 0 <= i < j < |t| ==> t[i].loc < t[j].loc
  }

  /** No instruction sets the location outright and no advance passes the end of the address
      space. */
  ghost predicate MovesForward(cx: Context, cur: nat, end: nat, st: State)
    requires Wf(st)
    decreases end - cur
  {
    cur < end ==>
      && !IsSetLoc(cx.sec.buf, cur)
      && st.loc + Product(Delta(cx.sec.buf, cur), st.codeAlign) < TWO64
      && var s := Exec(cx, cur, end, st);
         s.ok && s.cur <= end ==> MovesForward(cx, s.cur, end, s.st)
  }

  /** What an accepted instruction does to the parts of the state outside the rows. */
  lemma StepFrame(cx: Context, cur: nat, end: nat, st: State)
    requires Wf(st) && !IsSetLoc(cx.sec.buf, cur)
    requires Exec(cx, cur, end, st).ok
    ensures var s := Exec(cx, cur, end, st);
            && s.st.codeAlign == st.codeAlign && s.st.dataAlign == st.dataAlign && s.st.cieRegs == st.cieRegs
            && (if IsAdvance(cx.sec.buf, cur) then
                  && Delta(cx.sec.buf, cur) > 0
                  && s.st == st.(loc := Wrap(st.loc + Product(Delta(cx.sec.buf, cur), st.codeAlign)))
                else s.st.loc == st.loc)
  {
    hide Uleb, Sleb, LittleEndian, Product, ExecExtended;
    var b := ByteAt(cx.sec.buf, cur);
    if b / 64 == 0 {
      ExtendedFrame(cx, b, cur + 1, end, st);
    }
  }

  lemma ExtendedFrame(cx: Context, op: Byte, cur: nat, end: nat, st: State)
    requires Wf(st) && op < 64 && op != CFA_SET_LOC && ExecExtended(cx, op, cur, end, st).ok
    ensures var s := ExecExtended(cx, op, cur, end, st);
            var delta := if op == CFA_ADVANCE_LOC1 then ByteAt(cx.sec.buf, cur)
                         else if op == CFA_ADVANCE_LOC2 then U16At(cx.sec.buf, cur) else U32At(cx.sec.buf, cur);
            && s.st.codeAlign == st.codeAlign && s.st.dataAlign == st.dataAlign && s.st.cieRegs == st.cieRegs
            && (if CFA_ADVANCE_LOC1 <= op <= CFA_ADVANCE_LOC4 then
                  delta > 0 && s.st == st.(loc := Wrap(st.loc + Product(delta, st.codeAlign)))
                else s.st.loc == st.loc)
  {
    hide GetUleb, GetSleb, LittleEndian, Product, Wrap, ByteAt;
  }

  /** An advance that does not wrap strictly increases the location, because neither its
      operand nor the code alignment factor is zero. */
  lemma AdvanceIncreases(cx: Context, cur: nat, end: nat, st: State)
    requires Wf(st) && cur < end && st.codeAlign != 0
    requires MovesForward(cx, cur, end, st) && Exec(cx, cur, end, st).ok
    ensures var s := Exec(cx, cur, end, st);
            && s.st.codeAlign == st.codeAlign
            && (if IsAdvance(cx.sec.buf, cur) then s.st.loc > st.loc && Current(s.st) == Current(st)
                else s.st.loc == st.loc)
  {
    hide Exec, Delta;
    StepFrame(cx, cur, end, st);
    if IsAdvance(cx.sec.buf, cur) {
      PositiveProduct(Delta(cx.sec.buf, cur), st.codeAlign);
    }
  }

  lemma PositiveProduct(x: int, y: int)
    requires x > 0 && y > 0
    ensures Product(x, y) > 0
  {
  }

  lemma {:induction false} TableIncreases(cx: Context, cur: nat, end: nat, st: State)
    requires Wf(st) && st.codeAlign != 0 && MovesForward(cx, cur, end, st)
    ensures StrictlyIncreasing(Table(cx, cur, end, st))
    decreases end - cur
  {
    hide Exec, Delta, Product;
    if cur < end {
      var s := Exec(cx, cur, end, st);
      if s.ok && s.cur <= end {
        AdvanceIncreases(cx, cur, end, st);
        TableIncreases(cx, s.cur, end, s.st);
      }
    }
  }

  lemma RowOfCons<R>(e: Entry<R>, t: seq<Entry<R>>, pc: Word)
    ensures RowAt([e] + t, pc) ==
            if RowAt(t, pc).Some? then RowAt(t, pc) else if e.loc <= pc then Some(e.row) else None
  {
    assert Locs([e] + t) == [e.loc] + Locs(t);
    LastOfCons(e.loc, Locs(t), pc);
  }

  /** Early stop equals table lookup. If the whole program is accepted, then stopping it at
      `pc` is accepted too, and the row it leaves is the last row of the table at or before
      `pc`. */
  lemma {:induction false} StopIsLookup(cx: Context, cur: nat, end: nat, pc: Word, st: State)
    requires Wf(st) && st.codeAlign != 0 && MovesForward(cx, cur, end, st)
    requires Run(cx, cur, end, 0, st).ok
    requires st.loc <= pc && pc != 0
    ensures Run(cx, cur, end, pc, st).ok
    ensures RowAt(Table(cx, cur, end, st), pc) == Some(Current(Run(cx, cur, end, pc, st).st))
    decreases end - cur
  {
    hide Exec, Delta, Product;
    var here := Entry(st.loc, Current(st));
    if cur >= end {
      RowOfCons(here, [], pc);
    } else {
      var s := Exec(cx, cur, end, st);
      AdvanceIncreases(cx, cur, end, st);
      var rest := Table(cx, s.cur, end, s.st);
      RowOfCons(here, rest, pc);
      if s.st.loc > pc {
        TableIncreases(cx, s.cur, end, s.st);
        NoLast(Locs(rest), pc);
      } else {
        StopIsLookup(cx, s.cur, end, pc, s.st);
      }
    }
  }
}
