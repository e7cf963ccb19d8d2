/** Finding the size of `.eh_frame` by walking its records to the terminator. */
module SectionWalk {
  import opened Words

  /** Where the section is mapped and the limits it is checked against. `buf` is the memory from
      the section's start on. */
  datatype Bounds = Bounds(buf: seq<Byte>, eh: Word, vmaStart: Word, vmaEnd: Word, hdrAddr: Word)

  const ESCAPE: nat := 0xffff_ffff

  /** A record's length field: its value and its own size, 12 bytes when escaped. */
  datatype Length = Length(value: Word, header: nat)

  function LengthAt(buf: seq<Byte>, at: nat): (r: Length)
    ensures r.header == 4 || r.header == 12
    ensures r.header == 4 ==> r.value < TWO32
  {
    if U32At(buf, at) == ESCAPE then Length(U64At(buf, at + 4), 12) else Length(U32At(buf, at), 4)
  }

  /** One round of the loop from address `prev`: the address after the record, or failure. */
  function NextRecord(b: Bounds, prev: Word): (r: Option<Word>)
    ensures r.Some? ==> r.value > prev
  {
    var len := LengthAt(b.buf, Wrap(prev - b.eh));
    var ptr := Wrap(prev + len.header + len.value);
    if Wrap(Wrap(ptr - b.eh) + b.vmaStart + b.hdrAddr) > b.vmaEnd then None
    else if prev >= ptr then None
    else Some(ptr)
  }

  /** The whole walk: the length of the section, terminator included. */
  function Walk(b: Bounds, prev: Word): Option<Word>
    decreases TWO64 - prev
  {
    var next := NextRecord(b, prev);
    if next.None? then None
    else if LengthAt(b.buf, Wrap(prev - b.eh)).value == 0 then Some(Wrap(next.value - b.eh))
    else Walk(b, next.value)
  }

  /** The loop of `eh_frame_from_hdr`; the section size keeps 32 bits of the length. */
  method MeasureSection(b: Bounds) returns (r: Option<nat>)
    ensures r == match Walk(b, b.eh) case None => None case Some(len) => Some(len % 0x1_0000_0000)
  {
    hide LengthAt;
    var ptr: Word := b.eh;
    while true
      invariant Walk(b, ptr) == Walk(b, b.eh)
      decreases TWO64 - ptr
    {
      var len := LengthAt(b.buf, Wrap(ptr - b.eh));
      var next := NextRecord(b, ptr);
      if next.None? {
        return None;
      }
      ptr := next.value;
      if len.value == 0 {
        return Some(Wrap(ptr - b.eh) % 0x1_0000_0000);
      }
    }
  }

  /** Records from `at` tile the section up to `end`: each starts where the one before it ends,
      the last has length zero and no earlier one has. */
  ghost predicate Tiles(buf: seq<Byte>, at: nat, end: nat)
    decreases end - at
  {
    var len := LengthAt(buf, at);
    if len.value == 0 then at + len.header == end
    else at + len.header + len.value < end && Tiles(buf, at + len.header + len.value, end)
  }

  /** An escaped length so large that the pointer comes round past the length field. */
  predicate ComesRound(len: Length) {
    len.value + len.header > TWO64
  }

  /** No record the walk visits has such a length. */
  ghost predicate NoneComesRound(b: Bounds, prev: Word)
    decreases TWO64 - prev
  {
    && !ComesRound(LengthAt(b.buf, Wrap(prev - b.eh)))
    && (NextRecord(b, prev).Some? && LengthAt(b.buf, Wrap(prev - b.eh)).value != 0 ==>
          NoneComesRound(b, NextRecord(b, prev).value))
  }

  /** A round that succeeds either moves by exactly the record or has come round. */
  lemma RoundIsExact(b: Bounds, prev: Word)
    requires NextRecord(b, prev).Some? && prev >= b.eh
    ensures var len := LengthAt(b.buf, Wrap(prev - b.eh));
            ComesRound(len) <==> NextRecord(b, prev).value != prev + len.header + len.value
  {
    hide LengthAt;
  }

  /** When the walk succeeds, its records tile the measured section exactly if and only if no
      length it met came round. */
  lemma {:induction false} WalkTiles(b: Bounds, prev: Word)
    requires prev >= b.eh && Walk(b, prev).Some?
    ensures Walk(b, prev).value > prev - b.eh
    ensures Tiles(b.buf, prev - b.eh, Walk(b, prev).value) <==> NoneComesRound(b, prev)
    decreases TWO64 - prev
  {
    hide LengthAt, NextRecord;
    RoundIsExact(b, prev);
    OffsetOf(b, prev);
    var next := NextRecord(b, prev).value;
    OffsetOf(b, next);
    if LengthAt(b.buf, prev - b.eh).value != 0 {
      WalkTiles(b, next);
    }
  }

  // ----- sections as they are written -----

  /** A record: whether its length is escaped, and its bytes after the length. */
  datatype Record = Record(escaped: bool, body: seq<Byte>)

  /** Records have something in them, and a length that its field has room for. */
  predicate WellFormed(r: Record) {
    0 < |r.body| < if r.escaped then TWO64 else 0xffff_ffff
  }

  function RecordBytes(r: Record): seq<Byte> {
    (if r.escaped then [0xff, 0xff, 0xff, 0xff] + ToLittleEndian(|r.body|, 8) else ToLittleEndian(|r.body|, 4)) + r.body
  }

  function Layout(recs: seq<Record>): seq<Byte> {
    if recs == [] then [] else RecordBytes(recs[0]) + Layout(recs[1..])
  }

  /** The walk on a section of whole records and a terminator: it measures all of it if the end is
      within the bounds and fails otherwise. `prev` is the address of the first record. */
  lemma {:induction false} LayoutMeasured(b: Bounds, prev: Word, recs: seq<Record>)
    requires forall k :: 0 <= k < |recs| ==> WellFormed(recs[k])
    requires b.eh <= prev && Holds(b.buf, prev - b.eh, Layout(recs) + [0, 0, 0, 0])
    requires prev + |Layout(recs)| + 4 < TWO64
    requires prev - b.eh + |Layout(recs)| + 4 + b.vmaStart + b.hdrAddr < TWO64
    ensures var total := prev - b.eh + |Layout(recs)| + 4;
            Walk(b, prev) == if total + b.vmaStart + b.hdrAddr <= b.vmaEnd then Some(total) else None
    decreases |recs|
  {
    hide LengthAt, Layout, RecordBytes, WellFormed, Holds, NextRecord;
    var at := prev - b.eh;
    OffsetOf(b, prev);
    if recs == [] {
      assert Layout([]) == [] by { EmptyLayout(); }
      assert [] + [0, 0, 0, 0] == [0, 0, 0, 0];
      assert LengthAt(b.buf, at) == Length(0, 4) by { TerminatorLength(b.buf, at); }
      RecordInside(b, prev, prev + 4);
      OffsetOf(b, prev + 4);
    } else {
      var first, rest := RecordBytes(recs[0]), Layout(recs[1..]);
      FirstRecord(recs);
      assert (first + rest) + [0, 0, 0, 0] == first + (rest + [0, 0, 0, 0]);
      HoldsSplit(b.buf, at, first, rest + [0, 0, 0, 0]);
      RecordLength(b.buf, at, recs[0]);
      assert |recs[0].body| > 0 by { NotEmpty(recs[0]); }
      RecordInside(b, prev, prev + |first|);
      LayoutMeasured(b, prev + |first|, recs[1..]);
    }
  }

  lemma NotEmpty(r: Record)
    requires WellFormed(r)
    ensures |r.body| > 0
  {
  }

  /** One round on a record that ends below the end of the address space. */
  lemma RecordInside(b: Bounds, prev: Word, next: nat)
    requires b.eh <= prev && next < TWO64 && next - b.eh + b.vmaStart + b.hdrAddr < TWO64
    requires var len := LengthAt(b.buf, prev - b.eh); next == prev + len.header + len.value
    ensures NextRecord(b, prev) == if next - b.eh + b.vmaStart + b.hdrAddr <= b.vmaEnd then Some(next) else None
  {
    hide LengthAt;
    OffsetOf(b, prev);
  }

  lemma EmptyLayout()
    ensures Layout([]) == []
  {
  }

  lemma FirstRecord(recs: seq<Record>)
    requires recs != []
    ensures Layout(recs) == RecordBytes(recs[0]) + Layout(recs[1..])
  {
  }

  lemma TerminatorLength(buf: seq<Byte>, at: nat)
    requires Holds(buf, at, [0, 0, 0, 0])
    ensures LengthAt(buf, at) == Length(0, 4)
  {
    hide Pow2;
    assert forall i :: at <= i < at + 4 ==> ByteAt(buf, i) == buf[at..at + 4][i - at];
    hide LittleEndian;
    AllZeros(buf, at, 4);
  }

  /** The length field of a written record is read back. */
  lemma RecordLength(buf: seq<Byte>, at: nat, r: Record)
    requires WellFormed(r) && Holds(buf, at, RecordBytes(r))
    ensures var len := LengthAt(buf, at);
            len.value == |r.body| && len.header + len.value == |RecordBytes(r)|
  {
    hide LittleEndian, ToLittleEndian, Pow2, Holds;
    Pow2Bytes();
    if r.escaped {
      var mark, size := [0xff, 0xff, 0xff, 0xff], ToLittleEndian(|r.body|, 8);
      HoldsSplit(buf, at, mark + size, r.body);
      HoldsSplit(buf, at, mark, size);
      EscapeReads(buf, at);
      LittleEndianRoundTrip(buf, at + 4, |r.body|, 8);
    } else {
      HoldsSplit(buf, at, ToLittleEndian(|r.body|, 4), r.body);
      LittleEndianRoundTrip(buf, at, |r.body|, 4);
    }
  }

  lemma EscapeReads(buf: seq<Byte>, at: nat)
    requires Holds(buf, at, [0xff, 0xff, 0xff, 0xff])
    ensures U32At(buf, at) == 0xffff_ffff
  {
    hide Pow2;
    assert forall i :: at <= i < at + 4 ==> ByteAt(buf, i) == buf[at..at + 4][i - at];
    hide LittleEndian;
    AllOnes(buf, at, 4);
    Pow2Bytes();
  }

  /** So the method measures what was written, up to 32 bits of it. */
  lemma SectionMeasured(b: Bounds, recs: seq<Record>)
    requires forall k :: 0 <= k < |recs| ==> WellFormed(recs[k])
    requires Holds(b.buf, 0, Layout(recs) + [0, 0, 0, 0])
    requires b.eh + |Layout(recs)| + 4 < TWO64 && |Layout(recs)| + 4 + b.vmaStart + b.hdrAddr <= b.vmaEnd
    ensures Walk(b, b.eh) == Some(|Layout(recs)| + 4)
  {
    hide Walk, Layout, WellFormed;
    LayoutMeasured(b, b.eh, recs);
  }

  lemma OffsetOf(b: Bounds, a: Word)
    requires a >= b.eh
    ensures Wrap(a - b.eh) == a - b.eh
  {
  }

  /** A length that comes round is accepted, and then the walk measures a section that its
      records do not tile. */
  lemma ComingRoundIsAccepted(b: Bounds)
    requires b.buf == [0xff, 0xff, 0xff, 0xff, 0xfc, 0xff, 0xff, 0xff, 0xff, 0xff, 0xff, 0xff, 0, 0, 0, 0, 0, 0, 0, 0]
    requires b.eh == 0x1000 && b.vmaStart == 0 && b.hdrAddr == 0 && b.vmaEnd == 0x100
    ensures Walk(b, b.eh) == Some(20) && !Tiles(b.buf, 0, 20)
  {
    hide LengthAt, ByteAt;
    assert LengthAt(b.buf, 0) == Length(TWO64 - 4, 12) by { FirstLength(b.buf); }
    assert LengthAt(b.buf, 8) == Length(0, 12) by { SecondLength(b.buf); }
    assert NextRecord(b, 0x1000) == Some(0x1008);
    assert NextRecord(b, 0x1008) == Some(0x1014);
    assert Walk(b, 0x1008) == Some(20);
  }

  lemma Join(buf: seq<Byte>, at: nat, n: nat)
    requires n > 0
    ensures LittleEndian(buf, at, n) == ByteAt(buf, at) + 256 * LittleEndian(buf, at + 1, n - 1)
  {
  }

  lemma {:induction false} AllOnes(buf: seq<Byte>, at: nat, n: nat)
    requires forall i :: at <= i < at + n ==> ByteAt(buf, i) == 0xff
    ensures LittleEndian(buf, at, n) == Pow2(8 * n) - 1
    decreases n
  {
    if n > 0 {
      AllOnes(buf, at + 1, n - 1);
      Pow2Byte(8 * (n - 1));
    }
  }

  lemma {:induction false} AllZeros(buf: seq<Byte>, at: nat, n: nat)
    requires forall i :: at <= i < at + n ==> ByteAt(buf, i) == 0
    ensures LittleEndian(buf, at, n) == 0
    decreases n
  {
    if n > 0 {
      AllZeros(buf, at + 1, n - 1);
    }
  }

  lemma FirstLength(buf: seq<Byte>)
    requires buf == [0xff, 0xff, 0xff, 0xff, 0xfc, 0xff, 0xff, 0xff, 0xff, 0xff, 0xff, 0xff, 0, 0, 0, 0, 0, 0, 0, 0]
    ensures LengthAt(buf, 0) == Length(TWO64 - 4, 12)
  {
    hide LittleEndian, Pow2;
    AllOnes(buf, 0, 4);
    AllOnes(buf, 5, 7);
    Join(buf, 4, 8);
    Pow2Bytes();
    Pow2Byte(56);
  }

  lemma SecondLength(buf: seq<Byte>)
    requires buf == [0xff, 0xff, 0xff, 0xff, 0xfc, 0xff, 0xff, 0xff, 0xff, 0xff, 0xff, 0xff, 0, 0, 0, 0, 0, 0, 0, 0]
    ensures LengthAt(buf, 8) == Length(0, 12)
  {
    hide LittleEndian, Pow2;
    AllOnes(buf, 8, 4);
    AllZeros(buf, 12, 8);
    Pow2Bytes();
  }
}
