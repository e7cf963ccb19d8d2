/** The state a call frame information program works on: rows of register rules, the stack of
    remembered rows, and the rules the CIE left behind. */
module CfiState {
  import opened Words

  const COLUMNS: nat := 17
  const RBP: nat := 6
  const RSP: nat := 7
  const PC_COLUMN: nat := 16
  const MAX_DEPTH: nat := 4

  /** `unwind_item`. Offsets are two's complement patterns; an expression is the offset of
      its length prefix in the section. */
  datatype Item =
    | Same
    | Nowhere
    | Memory(off: Word)
    | Register(reg: Word)
    | Value(off: Word)
    | Expr(ptr: nat)
    | ValExpr(ptr: nat)

  datatype Cfa = RegOff(reg: Word, off: Word) | CfaExpr(ptr: nat)

  datatype Row = Row(cfa: Cfa, regs: seq<Item>)

  /** `unwind_state`; `rows[depth]` is the current row. */
  datatype State = State(
    loc: Word, codeAlign: Word, dataAlign: Word,
    depth: nat, rows: seq<Row>, cieRegs: seq<Item>)

  predicate WfRow(row: Row) {
    |row.regs| == COLUMNS
  }

  /** The shape every instruction boundary of an accepted run has. */
  predicate Wf(st: State) {
    && st.depth < MAX_DEPTH
    && |st.rows| == MAX_DEPTH
    && (forall i :: 0 <= i < MAX_DEPTH ==> WfRow(st.rows[i]))
    && |st.cieRegs| == COLUMNS
  }

  function Current(st: State): Row
    requires Wf(st)
  {
    st.rows[st.depth]
  }

  function WithRow(st: State, row: Row): (r: State)
    requires Wf(st) && WfRow(row)
    ensures Wf(r)
  {
    st.(rows := st.rows[st.depth := row])
  }

  /** The rule setters: a column the table does not have is ignored. */
  function SetRule(st: State, reg: Word, item: Item): (r: State)
    requires Wf(st)
    ensures Wf(r)
  {
    if reg < COLUMNS then WithRow(st, Current(st).(regs := Current(st).regs[reg := item])) else st
  }

  function SetCfa(st: State, cfa: Cfa): (r: State)
    requires Wf(st)
    ensures Wf(r)
  {
    WithRow(st, Current(st).(cfa := cfa))
  }

  /** The rule the CIE gave the column. */
  function RestoreRule(st: State, reg: Word): (r: State)
    requires Wf(st)
    ensures Wf(r)
  {
    if reg < COLUMNS then SetRule(st, reg, st.cieRegs[reg]) else st
  }
}
