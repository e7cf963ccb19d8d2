/** Encoded pointers of `.eh_frame` and `.eh_frame_hdr` (section 10.5.1 of LSB Core 5.0). */
module EncodedPointer {
  import opened Words
  import opened Leb128

  /** A section mapped in the kernel: its bytes, the address they are mapped at, and the
      words of user memory that indirect encodings go through. */
  datatype Section = Section(buf: seq<Byte>, base: Word, indirect: map<Word, Word>)

  /** The section ends below the end of the address space. */
  predicate InAddressSpace(sec: Section) {
    sec.base + |sec.buf| < TWO64
  }

  /** A pointer that was read and the cursor after it; 0 with the old cursor is the error. */
  datatype Ptr = Ptr(value: Word, pos: nat)

  const OMIT: Byte := 0xff

  function Form(enc: Byte): nat { enc % 8 }
  function Adjust(enc: Byte): nat { enc / 16 % 8 }
  predicate IsSigned(enc: Byte) { enc / 8 % 2 == 1 }
  predicate IsIndirect(enc: Byte) { enc >= 128 }

  /** The unadjusted value, or nothing when the bytes do not reach or the form is unknown. */
  function RawValue(buf: seq<Byte>, pos: nat, end: nat, enc: Byte): (r: Option<Decoded>)
    ensures r.Some? ==> pos <= r.value.cur && (r.value.cur <= end)
  {
    Pow2Bytes();
    match Form(enc)
    case 2 =>
      if end < pos + 2 then None
      else Some(Decoded(if IsSigned(enc) then SignExtend(U16At(buf, pos), 16) else U16At(buf, pos), pos + 2))
    case 3 =>
      if end < pos + 4 then None
      else Some(Decoded(if IsSigned(enc) then SignExtend(U32At(buf, pos), 32) else U32At(buf, pos), pos + 4))
    case 4 =>
      if end < pos + 8 then None else Some(Decoded(U64At(buf, pos), pos + 8))
    case 0 =>
      if end < pos + 8 then None else Some(Decoded(U64At(buf, pos), pos + 8))
    case 1 =>
      var d := if IsSigned(enc) then GetSleb(buf, pos, end) else GetUleb(buf, pos, end);
      if d.cur > end then None else Some(d)
    case _ => None
  }

  /** What an encoding adds to the bytes at `pos`. */
  function Bias(base: Word, pos: nat, enc: Byte, text: Word, data: Word): nat {
    match Adjust(enc)
    case 1 => base + pos
    case 2 => text
    case 3 => data
    case _ => 0
  }

  function Adjusted(sec: Section, raw: Word, pos: nat, enc: Byte, text: Word, data: Word): Option<Word> {
    if Adjust(enc) > 3 then None else Some(Wrap(raw + Bias(sec.base, pos, enc, text, data)))
  }

  function ReadPtr(sec: Section, pos: nat, end: nat, enc: Byte, text: Word, data: Word): (r: Ptr)
    ensures r.pos >= pos && (r.pos == pos || r.pos <= end)
  {
    if enc == OMIT then Ptr(0, pos) else
    var raw := RawValue(sec.buf, pos, end, enc);
    if raw.None? then Ptr(0, pos) else
    var adjusted := Adjusted(sec, raw.value.value, pos, enc, text, data);
    if adjusted.None? then Ptr(0, pos)
    else if !IsIndirect(enc) then Ptr(adjusted.value, raw.value.cur)
    else if adjusted.value in sec.indirect then Ptr(sec.indirect[adjusted.value], raw.value.cur)
    else Ptr(0, pos)
  }

  /** The reader used inside `.eh_frame`, where no text or data base applies. */
  function ReadPointer(sec: Section, pos: nat, end: nat, enc: Byte): (r: Ptr)
    ensures r.pos >= pos && (r.pos == pos || r.pos <= end)
  {
    ReadPtr(sec, pos, end, enc, 0, 0)
  }

  // ----- the encodings in numbers -----

  /** The `int` and the `short` at an offset. */
  function S32At(buf: seq<Byte>, pos: nat): int {
    if U32At(buf, pos) < 0x8000_0000 then U32At(buf, pos) else U32At(buf, pos) - 0x1_0000_0000
  }

  function S16At(buf: seq<Byte>, pos: nat): int {
    if U16At(buf, pos) < 0x8000 then U16At(buf, pos) else U16At(buf, pos) - 0x1_0000
  }

  lemma SignExtends(buf: seq<Byte>, pos: nat)
    ensures Pow2(16) == 0x1_0000 && Pow2(32) == TWO32
    ensures SignExtend(U16At(buf, pos), 16) == Wrap(S16At(buf, pos))
    ensures SignExtend(U32At(buf, pos), 32) == Wrap(S32At(buf, pos))
  {
    assert Pow2(16) == 2 * Pow2(15) && Pow2(32) == 2 * Pow2(31);
    hide Pow2, LittleEndian;
    Pow2Bytes();
  }

  /** Absolute pointers in every form of fixed size, by the numbers of their encodings. */
  lemma AbsoluteEncodings(sec: Section, pos: nat, end: nat, text: Word, data: Word)
    requires pos + 8 <= end
    ensures ReadPtr(sec, pos, end, 0x00, text, data) == Ptr(U64At(sec.buf, pos), pos + 8)
    ensures ReadPtr(sec, pos, end, 0x02, text, data) == Ptr(U16At(sec.buf, pos), pos + 2)
    ensures ReadPtr(sec, pos, end, 0x03, text, data) == Ptr(U32At(sec.buf, pos), pos + 4)
    ensures ReadPtr(sec, pos, end, 0x04, text, data) == Ptr(U64At(sec.buf, pos), pos + 8)
    ensures ReadPtr(sec, pos, end, 0x0a, text, data) == Ptr(Wrap(S16At(sec.buf, pos)), pos + 2)
    ensures ReadPtr(sec, pos, end, 0x0b, text, data) == Ptr(Wrap(S32At(sec.buf, pos)), pos + 4)
    ensures ReadPtr(sec, pos, end, 0x0c, text, data) == Ptr(U64At(sec.buf, pos), pos + 8)
  {
    hide LittleEndian, SignExtend, Pow2;
    SignExtends(sec.buf, pos);
  }

  /** What the four-byte forms are relative to: the pointer itself, the text, the data. */
  lemma RelativeEncodings(sec: Section, pos: nat, end: nat, text: Word, data: Word)
    requires pos + 8 <= end
    ensures ReadPtr(sec, pos, end, 0x13, text, data) == Ptr(Wrap(U32At(sec.buf, pos) + sec.base + pos), pos + 4)
    ensures ReadPtr(sec, pos, end, 0x1b, text, data) == Ptr(Wrap(S32At(sec.buf, pos) + sec.base + pos), pos + 4)
    ensures ReadPtr(sec, pos, end, 0x2b, text, data) == Ptr(Wrap(S32At(sec.buf, pos) + text), pos + 4)
    ensures ReadPtr(sec, pos, end, 0x3b, text, data) == Ptr(Wrap(S32At(sec.buf, pos) + data), pos + 4)
  {
    hide LittleEndian, SignExtend, Pow2, Wrap, U32At;
    SignExtends(sec.buf, pos);
    WrapThenAdd(S32At(sec.buf, pos), sec.base + pos);
    WrapThenAdd(S32At(sec.buf, pos), text);
    WrapThenAdd(S32At(sec.buf, pos), data);
  }

  lemma WrapThenAdd(n: int, m: int)
    ensures Wrap(Wrap(n) + m) == Wrap(n + m)
  {
  }

  /** LEB128 and indirect pointers. */
  lemma OtherEncodings(sec: Section, pos: nat, end: nat, text: Word, data: Word)
    ensures var d := GetUleb(sec.buf, pos, end);
            ReadPtr(sec, pos, end, 0x01, text, data) == if d.cur > end then Ptr(0, pos) else Ptr(d.value, d.cur)
    ensures var d := GetSleb(sec.buf, pos, end);
            ReadPtr(sec, pos, end, 0x09, text, data) == if d.cur > end then Ptr(0, pos) else Ptr(d.value, d.cur)
    ensures pos + 8 <= end ==>
              ReadPtr(sec, pos, end, 0x80, text, data) ==
              if U64At(sec.buf, pos) in sec.indirect
              then Ptr(sec.indirect[U64At(sec.buf, pos)], pos + 8) else Ptr(0, pos)
  {
    hide LittleEndian, SignExtend, Pow2, Uleb, Sleb;
  }

  /** What is refused: an omitted pointer, unknown forms and bases, and bytes that do not reach. */
  lemma RefusedEncodings(sec: Section, pos: nat, end: nat, enc: Byte, text: Word, data: Word)
    requires || enc == 0xff || enc % 8 > 4 || enc / 16 % 8 > 3
             || (end < pos + 8 && enc % 8 in {0, 4})
             || (end < pos + 4 && enc % 8 == 3) || (end < pos + 2 && enc % 8 == 2)
    ensures ReadPtr(sec, pos, end, enc, text, data) == Ptr(0, pos)
  {
    hide LittleEndian, SignExtend, Pow2, Uleb, Sleb, Bias, Wrap;
  }

  // ----- encoding -----

  /** Encodings that the reader knows. */
  predicate Known(enc: Byte) {
    enc != OMIT && Form(enc) <= 4 && Adjust(enc) <= 3
  }

  /** Values that the form has room for and the readers get back. */
  predicate FormHolds(enc: Byte, raw: Word) {
    match Form(enc)
    case 1 => !IsSigned(enc) || SlebExact(Signed(raw))
    case 2 => if IsSigned(enc) then -0x8000 <= Signed(raw) < 0x8000 else raw < 0x1_0000
    case 3 => if IsSigned(enc) then -0x8000_0000 <= Signed(raw) < 0x8000_0000 else raw < TWO32
    case _ => true
  }

  function EncodeRaw(enc: Byte, raw: Word): seq<Byte> {
    match Form(enc)
    case 1 => if IsSigned(enc) then SlebEncode(Signed(raw)) else UlebEncode(raw)
    case 2 => ToLittleEndian(raw % 0x1_0000, SHORT_SIZE)
    case 3 => ToLittleEndian(raw % 0x1_0000_0000, INT_SIZE)
    case _ => ToLittleEndian(raw, LONG_SIZE)
  }

  /** What the bytes of a pointer to `addr` have to hold, and those bytes. */
  function Unbiased(base: Word, pos: nat, enc: Byte, addr: Word, text: Word, data: Word): Word {
    Wrap(addr - Bias(base, pos, enc, text, data))
  }

  function EncodePtr(base: Word, pos: nat, enc: Byte, addr: Word, text: Word, data: Word): seq<Byte> {
    EncodeRaw(enc, Unbiased(base, pos, enc, addr, text, data))
  }

  predicate PtrFits(base: Word, pos: nat, enc: Byte, addr: Word, text: Word, data: Word) {
    Known(enc) && FormHolds(enc, Unbiased(base, pos, enc, addr, text, data))
  }

  /** The pointer that `addr` stands for: itself, or what lies there for an indirect encoding. */
  function Target(sec: Section, enc: Byte, addr: Word): Option<Word> {
    if !IsIndirect(enc) then Some(addr)
    else if addr in sec.indirect then Some(sec.indirect[addr]) else None
  }

  lemma ShortExtends(raw: Word)
    requires -0x8000 <= Signed(raw) < 0x8000
    ensures raw % 0x1_0000 < Pow2(16) && SignExtend(raw % 0x1_0000, 16) == raw
  {
    assert Pow2(16) == 2 * Pow2(15);
    hide Pow2;
    Pow2Bytes();
  }

  lemma IntExtends(raw: Word)
    requires -0x8000_0000 <= Signed(raw) < 0x8000_0000
    ensures raw % 0x1_0000_0000 < Pow2(32) && SignExtend(raw % 0x1_0000_0000, 32) == raw
  {
    assert Pow2(32) == 2 * Pow2(31);
    hide Pow2;
    Pow2Bytes();
  }

  lemma FixedRoundTrip(buf: seq<Byte>, pos: nat, end: nat, enc: Byte, raw: Word)
    requires Form(enc) in {0, 2, 3, 4} && FormHolds(enc, raw)
    requires Holds(buf, pos, EncodeRaw(enc, raw)) && pos + |EncodeRaw(enc, raw)| <= end
    ensures RawValue(buf, pos, end, enc) == Some(Decoded(raw, pos + |EncodeRaw(enc, raw)|))
  {
    hide LittleEndian, ToLittleEndian, Uleb, Sleb, Holds, SignExtend, Pow2;
    Pow2Bytes();
    match Form(enc) {
      case 2 =>
        LittleEndianRoundTrip(buf, pos, raw % 0x1_0000, SHORT_SIZE);
        if IsSigned(enc) {
          ShortExtends(raw);
        }
      case 3 =>
        LittleEndianRoundTrip(buf, pos, raw % 0x1_0000_0000, INT_SIZE);
        if IsSigned(enc) {
          IntExtends(raw);
        }
      case _ =>
        LittleEndianRoundTrip(buf, pos, raw, LONG_SIZE);
    }
  }

  lemma RawRoundTrip(buf: seq<Byte>, pos: nat, end: nat, enc: Byte, raw: Word)
    requires Form(enc) <= 4 && FormHolds(enc, raw)
    requires Holds(buf, pos, EncodeRaw(enc, raw)) && pos + |EncodeRaw(enc, raw)| <= end
    ensures RawValue(buf, pos, end, enc) == Some(Decoded(raw, pos + |EncodeRaw(enc, raw)|))
  {
    hide Uleb, Sleb, UlebEncode, SlebEncode, LittleEndian, ToLittleEndian, SignExtend, Pow2, Holds;
    if Form(enc) != 1 {
      FixedRoundTrip(buf, pos, end, enc, raw);
    } else if IsSigned(enc) {
      SlebRoundTrip(buf, pos, end, Signed(raw));
    } else {
      UlebRoundTrip(buf, pos, end, raw);
    }
  }

  lemma BiasCancels(addr: Word, bias: nat)
    ensures Wrap(Wrap(addr - bias) + bias) == addr
  {
  }

  /** Reading a pointer inverts writing it, in every encoding the reader knows: any form, relative
      to nothing, the pointer itself, the text or the data, direct or indirect. An indirect one
      that cannot be followed is the error. */
  lemma PointerRoundTrip(sec: Section, pos: nat, end: nat, enc: Byte, addr: Word, text: Word, data: Word)
    requires PtrFits(sec.base, pos, enc, addr, text, data)
    requires Holds(sec.buf, pos, EncodePtr(sec.base, pos, enc, addr, text, data))
    requires pos + |EncodePtr(sec.base, pos, enc, addr, text, data)| <= end
    ensures ReadPtr(sec, pos, end, enc, text, data) ==
            match Target(sec, enc, addr)
            case Some(value) => Ptr(value, pos + |EncodePtr(sec.base, pos, enc, addr, text, data)|)
            case None => Ptr(0, pos)
  {
    hide RawValue, EncodeRaw, FormHolds, Bias, Wrap, Form, Adjust;
    RawRoundTrip(sec.buf, pos, end, enc, Unbiased(sec.base, pos, enc, addr, text, data));
    BiasCancels(addr, Bias(sec.base, pos, enc, text, data));
  }
}
