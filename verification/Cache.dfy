/** The per-process unwind cache: a hash table with chained buckets, keyed by pc, and the proof
    that over any history it answers as a finite map. */
module Cache {
  import opened Words
  import opened Restore

  type Bucket = seq<Tdep>
  type Buckets = seq<Bucket>

  /** Any hash function will do. */
  type Hash = Word -> nat

  function Slot(h: Hash, n: nat, pc: Word): (i: nat)
    requires n > 0
    ensures i < n
  {
    h(pc) % n
  }

  /** The first entry of a chain with the pc. */
  function FindIn(b: Bucket, pc: Word): (r: Option<Tdep>)
    ensures r.Some? ==> r.value in b && r.value.pc == pc
    ensures r.None? ==> forall k :: 0 <= k < |b| ==> b[k].pc != pc
  {
    if b == [] then None else if b[0].pc == pc then Some(b[0]) else FindIn(b[1..], pc)
  }

  function RemoveFrom(b: Bucket, pc: Word): Bucket {
    if b == [] then [] else if b[0].pc == pc then b[1..] else [b[0]] + RemoveFrom(b[1..], pc)
  }

  function Find(bs: Buckets, h: Hash, pc: Word): Option<Tdep>
    requires |bs| > 0
  {
    FindIn(bs[Slot(h, |bs|, pc)], pc)
  }

  function Add(bs: Buckets, h: Hash, e: Tdep): (r: Buckets)
    requires |bs| > 0
    ensures |r| == |bs|
  {
    var i := Slot(h, |bs|, e.pc);
    if Find(bs, h, e.pc).Some? then bs else bs[i := [e] + bs[i]]
  }

  function Delete(bs: Buckets, h: Hash, pc: Word): (r: Buckets)
    requires |bs| > 0
    ensures |r| == |bs|
  {
    var i := Slot(h, |bs|, pc);
    bs[i := RemoveFrom(bs[i], pc)]
  }

  function Empty(n: nat): (r: Buckets)
    ensures |r| == n
  {
    seq(n, _ => [])
  }

  // ----- the invariant -----

  ghost predicate DistinctPcs(b: Bucket) {
    forall j, k :: 0 <= j < k < |b| ==> b[j].pc != b[k].pc
  }

  /** Every entry is in the bucket of its pc and no pc occurs twice. */
  ghost predicate Wf(bs: Buckets, h: Hash) {
    && |bs| > 0
    && (forall i, k :: 0 <= i < |bs| && 0 <= k < |bs[i]| ==> Slot(h, |bs|, bs[i][k].pc) == i)
    && (forall i :: 0 <= i < |bs| ==> DistinctPcs(bs[i]))
  }

  ghost function Pcs(bs: Buckets): set<Word> {
    set i, k | 0 <= i < |bs| && 0 <= k < |bs[i]| :: bs[i][k].pc
  }

  /** The finite map the table stands for. */
  ghost function Contents(bs: Buckets, h: Hash): map<Word, Tdep>
    requires |bs| > 0
  {
    map pc | pc in Pcs(bs) && Find(bs, h, pc).Some? :: Find(bs, h, pc).value
  }

  lemma FindIsLookup(bs: Buckets, h: Hash, pc: Word)
    requires |bs| > 0
    ensures Find(bs, h, pc) == if pc in Contents(bs, h) then Some(Contents(bs, h)[pc]) else None
  {
    var i := Slot(h, |bs|, pc);
    var r := FindIn(bs[i], pc);
    if r.Some? {
      var k :| 0 <= k < |bs[i]| && bs[i][k] == r.value;
      assert bs[i][k].pc in Pcs(bs);
    }
  }

  lemma {:induction false} RemoveGone(b: Bucket, pc: Word)
    requires DistinctPcs(b)
    ensures var r := RemoveFrom(b, pc);
            && DistinctPcs(r)
            && (forall e :: e in r <==> e in b && e.pc != pc)
            && FindIn(r, pc).None?
            && forall q :: q != pc ==> FindIn(r, q) == FindIn(b, q)
  {
    if b != [] {
      if b[0].pc == pc {
        assert forall e :: e in b <==> e == b[0] || e in b[1..];
      } else {
        RemoveGone(b[1..], pc);
        assert forall e :: e in b <==> e == b[0] || e in b[1..];
        var r := RemoveFrom(b, pc);
        assert r[1..] == RemoveFrom(b[1..], pc);
        assert forall e :: e in r <==> e == b[0] || e in r[1..];
        forall k | 1 <= k < |r|
          ensures r[k].pc != b[0].pc
        {
          assert r[k] in r[1..];
        }
      }
    }
  }

  /** Adding keeps the invariant, never replaces an entry, and adds exactly one mapping. */
  lemma AddRefines(bs: Buckets, h: Hash, e: Tdep)
    requires Wf(bs, h)
    ensures var bs', m := Add(bs, h, e), Contents(bs, h);
            Wf(bs', h) && Contents(bs', h) == if e.pc in m then m else m[e.pc := e]
  {
    var bs', m := Add(bs, h, e), Contents(bs, h);
    FindIsLookup(bs, h, e.pc);
    if Find(bs, h, e.pc).None? {
      AddKeepsWf(bs, h, e);
      var m' := m[e.pc := e];
      forall pc: Word
        ensures Find(bs', h, pc) == if pc in m' then Some(m'[pc]) else None
      {
        FindIsLookup(bs, h, pc);
        var b := bs[Slot(h, |bs|, e.pc)];
        assert ([e] + b)[1..] == b;
      }
      SameAnswersSameContents(bs', h, m');
    }
  }

  lemma AddKeepsWf(bs: Buckets, h: Hash, e: Tdep)
    requires Wf(bs, h) && Find(bs, h, e.pc).None?
    ensures Wf(Add(bs, h, e), h)
  {
  }

  lemma DeleteRefines(bs: Buckets, h: Hash, pc: Word)
    requires Wf(bs, h)
    ensures var bs' := Delete(bs, h, pc); Wf(bs', h) && Contents(bs', h) == Contents(bs, h) - {pc}
  {
    var bs' := Delete(bs, h, pc);
    var m := Contents(bs, h);
    var i := Slot(h, |bs|, pc);
    RemoveGone(bs[i], pc);
    var chain: Bucket := bs'[i];
    forall k | 0 <= k < |chain|
      ensures Slot(h, |bs|, chain[k].pc) == i
    {
      assert chain[k] in bs[i];
    }
    var m' := m - {pc};
    forall q: Word
      ensures Find(bs', h, q) == if q in m' then Some(m'[q]) else None
    {
      FindIsLookup(bs, h, q);
    }
    SameAnswersSameContents(bs', h, m');
  }

  lemma SameAnswersSameContents(bs: Buckets, h: Hash, m: map<Word, Tdep>)
    requires |bs| > 0
    requires forall pc: Word :: Find(bs, h, pc) == if pc in m then Some(m[pc]) else None
    ensures Contents(bs, h) == m
  {
    hide Find;
    var c := Contents(bs, h);
    forall pc: Word
      ensures pc in c <==> pc in m
      ensures pc in c ==> c[pc] == m[pc]
    {
      FindIsLookup(bs, h, pc);
    }
    assert c.Keys == m.Keys;
  }

  lemma EmptyRefines(n: nat, h: Hash)
    requires n > 0
    ensures Wf(Empty(n), h) && Contents(Empty(n), h) == map[]
  {
  }

  // ----- histories -----

  datatype Op = OpFind(pc: Word) | OpAdd(e: Tdep) | OpDelete(pc: Word) | OpClear

  datatype Table = Table(bs: Buckets, answers: seq<Option<Tdep>>)

  datatype Reference = Reference(m: map<Word, Tdep>, answers: seq<Option<Tdep>>)

  function StepTable(t: Table, h: Hash, op: Op): (r: Table)
    requires |t.bs| > 0
    ensures |r.bs| == |t.bs|
  {
    match op
    case OpFind(pc) => t.(answers := t.answers + [Find(t.bs, h, pc)])
    case OpAdd(e) => t.(bs := Add(t.bs, h, e))
    case OpDelete(pc) => t.(bs := Delete(t.bs, h, pc))
    case OpClear => t.(bs := Empty(|t.bs|))
  }

  function StepReference(r: Reference, op: Op): Reference {
    match op
    case OpFind(pc) => r.(answers := r.answers + [if pc in r.m then Some(r.m[pc]) else None])
    case OpAdd(e) => if e.pc in r.m then r else r.(m := r.m[e.pc := e])
    case OpDelete(pc) => r.(m := r.m - {pc})
    case OpClear => r.(m := map[])
  }

  function RunTable(t: Table, h: Hash, ops: seq<Op>): (r: Table)
    requires |t.bs| > 0
    ensures |r.bs| == |t.bs|
    decreases |ops|
  {
    if ops == [] then t else RunTable(StepTable(t, h, ops[0]), h, ops[1..])
  }

  function RunReference(r: Reference, ops: seq<Op>): Reference
    decreases |ops|
  {
    if ops == [] then r else RunReference(StepReference(r, ops[0]), ops[1..])
  }

  lemma {:induction false} HistoryRefines(t: Table, r: Reference, h: Hash, ops: seq<Op>)
    requires Wf(t.bs, h) && Contents(t.bs, h) == r.m && t.answers == r.answers
    ensures var t', r' := RunTable(t, h, ops), RunReference(r, ops);
            Wf(t'.bs, h) && Contents(t'.bs, h) == r'.m && t'.answers == r'.answers
    decreases |ops|
  {
    assert |t.bs| > 0;
    hide Wf, Contents, Find, Add, Delete;
    if ops != [] {
      match ops[0] {
        case OpFind(pc) => FindIsLookup(t.bs, h, pc);
        case OpAdd(e) => AddRefines(t.bs, h, e);
        case OpDelete(pc) => DeleteRefines(t.bs, h, pc);
        case OpClear => EmptyRefines(|t.bs|, h);
      }
      HistoryRefines(StepTable(t, h, ops[0]), StepReference(r, ops[0]), h, ops[1..]);
    }
  }

  /** From an empty table of any size, with any hash function, every history of operations gets
      the answers of a finite map and keeps each pc once, in its own bucket. */
  lemma CacheIsMap(n: nat, h: Hash, ops: seq<Op>)
    requires n > 0
    ensures var t := RunTable(Table(Empty(n), []), h, ops);
            var r := RunReference(Reference(map[], []), ops);
            Wf(t.bs, h) && Contents(t.bs, h) == r.m && t.answers == r.answers
  {
    EmptyRefines(n, h);
    HistoryRefines(Table(Empty(n), []), Reference(map[], []), h, ops);
  }

  // ----- the table object -----

  class UnwCache {
    const bucket: array<Bucket>
    const hash: Hash

    ghost predicate Valid()
      reads bucket
    {
      Wf(bucket[..], hash)
    }

    ghost function View(): map<Word, Tdep>
      requires Valid()
      reads bucket
    {
      Contents(bucket[..], hash)
    }

    constructor (n: nat, h: Hash)
      requires n > 0
      ensures Valid() && fresh(bucket) && View() == map[]
    {
      bucket := new Bucket[n](_ => []);
      hash := h;
      new;
      EmptyRefines(n, h);
      assert bucket[..] == Empty(n);
    }

    /** `unw_cache_find_entry`: walk the chain of the pc's bucket. */
    method FindEntry(pc: Word) returns (r: Option<Tdep>)
      requires Valid()
      ensures r == if pc in View() then Some(View()[pc]) else None
    {
      var chain := bucket[Slot(hash, bucket.Length, pc)];
      ghost var goal := Find(bucket[..], hash, pc);
      FindIsLookup(bucket[..], hash, pc);
      while chain != []
        invariant FindIn(chain, pc) == goal
        decreases |chain|
      {
        if chain[0].pc == pc {
          return Some(chain[0]);
        }
        chain := chain[1..];
      }
      r := None;
    }

    /** `unw_cache_add_entry`: nothing happens when the pc is already there. */
    method AddEntry(e: Tdep)
      requires Valid()
      modifies bucket
      ensures Valid()
      ensures View() == if e.pc in old(View()) then old(View()) else old(View())[e.pc := e]
    {
      var found := FindEntry(e.pc);
      AddRefines(bucket[..], hash, e);
      FindIsLookup(bucket[..], hash, e.pc);
      if found.None? {
        var i := Slot(hash, bucket.Length, e.pc);
        bucket[i] := [e] + bucket[i];
        assert bucket[..] == Add(old(bucket[..]), hash, e);
      }
    }

    /** `unw_cache_del_entry`. */
    method DeleteEntry(pc: Word)
      requires Valid()
      modifies bucket
      ensures Valid() && View() == old(View()) - {pc}
    {
      DeleteRefines(bucket[..], hash, pc);
      var i := Slot(hash, bucket.Length, pc);
      bucket[i] := RemoveFrom(bucket[i], pc);
      assert bucket[..] == Delete(old(bucket[..]), hash, pc);
    }

    /** `unw_cache_clear`: take entries off every chain until it is empty. */
    method Clear()
      requires Valid()
      modifies bucket
      ensures Valid() && View() == map[]
    {
      var n := bucket.Length;
      for i := 0 to n
        invariant forall k :: 0 <= k < i ==> bucket[k] == []
      {
        while bucket[i] != []
          invariant forall k :: 0 <= k < i ==> bucket[k] == []
          decreases |bucket[i]|
        {
          bucket[i] := bucket[i][1..];
        }
      }
      EmptyRefines(n, hash);
      assert bucket[..] == Empty(n);
    }
  }
}
