/** Checks and parsing of the CIE and FDE headers of `.eh_frame` (section 10.6.1 of LSB Core
    5.0). Positions are offsets in the section. */
module FrameHeaders {
  import opened Words
  import opened Leb128
  import opened EncodedPointer

  // ----- geometry -----

  predicate HasCieId(buf: seq<Byte>, at: nat) {
    U32At(buf, at + 4) == 0 || U32At(buf, at + 4) == 0xffff_ffff
  }

  /** The end of the record at an offset. */
  function RecordEnd(buf: seq<Byte>, at: nat): nat {
    at + 4 + U32At(buf, at)
  }

  predicate CheckFde(buf: seq<Byte>, fde: nat) {
    && U32At(buf, fde) != 0 && U32At(buf, fde) % 4 == 0
    && !HasCieId(buf, fde)
    && RecordEnd(buf, fde) <= |buf|
  }

  function CieForFde(buf: seq<Byte>, fde: nat): Option<nat> {
    var back := U32At(buf, fde + 4);
    if back % 4 != 0 || back > fde + 4 then None else
    var cie := fde + 4 - back;
    if cie > |buf| then None
    else if U32At(buf, cie) <= 8 || U32At(buf, cie) >= Wrap(back - 4) || !HasCieId(buf, cie) then None
    else if ByteAt(buf, cie + 8) !in {1, 3, 4} then None
    else if RecordEnd(buf, cie) > |buf| then None
    else Some(cie)
  }

  /** A pair that passes both checks: the CIE starts and ends inside the section, the FDE starts
      after the CIE and ends inside the section, and the CIE ends below the FDE's second word,
      clear of the FDE exactly when it is no longer than the distance allows. */
  lemma Geometry(buf: seq<Byte>, fde: nat)
    requires CheckFde(buf, fde) && CieForFde(buf, fde).Some?
    ensures var cie := CieForFde(buf, fde).value;
            && cie < |buf| && RecordEnd(buf, cie) <= |buf|
            && cie < fde && RecordEnd(buf, fde) <= |buf|
            && RecordEnd(buf, cie) < fde + 4
            && (U32At(buf, cie) % 4 == 0 ==> RecordEnd(buf, cie) <= fde)
            && (RecordEnd(buf, cie) <= fde <==> U32At(buf, cie) + 8 <= U32At(buf, fde + 4))
  {
    hide LittleEndian;
    var cie := CieForFde(buf, fde).value;
    var back := U32At(buf, fde + 4);
    assert back != 0 && Wrap(back - 4) == back - 4;
    if U32At(buf, cie) % 4 == 0 {
      AlignedBelow(U32At(buf, cie), back);
    }
  }

  lemma AlignedBelow(len: nat, back: nat)
    requires back % 4 == 0 && len < back - 4 && len % 4 == 0
    ensures len + 8 <= back
  {
  }

  /** The two checks on the words of the records: the FDE's length and back pointer, the CIE's length
      and id, and its version. */
  lemma ChecksOnWords(buf: seq<Byte>, fde: nat, cie: nat)
    ensures var len, back := U32At(buf, fde), U32At(buf, fde + 4);
            CheckFde(buf, fde) <==>
              && len > 0 && len % 4 == 0 && fde + 4 + len <= |buf|
              && back != 0 && back != 0xffff_ffff
    ensures var back, len, id := U32At(buf, fde + 4), U32At(buf, cie), U32At(buf, cie + 4);
            back > 0 ==>
              (CieForFde(buf, fde) == Some(cie) <==>
                 && back % 4 == 0 && cie + back == fde + 4 && 8 < len < back - 4 && cie + 4 + len <= |buf|
                 && (id == 0 || id == 0xffff_ffff)
                 && (ByteAt(buf, cie + 8) == 1 || ByteAt(buf, cie + 8) == 3 || ByteAt(buf, cie + 8) == 4))
  {
    hide U32At;
  }

  /** The overlap is possible: both checks pass although the CIE's last byte is the FDE's first. */
  lemma CieMayOverlapFde(buf: seq<Byte>)
    requires buf == [13, 0, 0, 0, 0, 0, 0, 0, 1, 0, 1, 1, 1, 0, 0, 0, 8, 0, 0, 0, 20, 0, 0, 0, 0, 0, 0, 0]
    ensures CheckFde(buf, 16) && CieForFde(buf, 16) == Some(0) && RecordEnd(buf, 0) == 17
  {
    hide U32At, Quad;
    assert U32At(buf, 0) == 13 by { FourBytes(buf, 0); QuadOf(13); }
    assert U32At(buf, 4) == 0 by { FourBytes(buf, 4); QuadOf(0); }
    assert U32At(buf, 16) == 8 by { FourBytes(buf, 16); QuadOf(8); }
    assert U32At(buf, 20) == 20 by { FourBytes(buf, 20); QuadOf(20); }
  }

  lemma QuadOf(a: int)
    ensures Quad(a, 0, 0, 0) == a
  {
  }

  function Quad(a: int, b: int, c: int, d: int): int {
    a + 0x100 * b + 0x1_0000 * c + 0x100_0000 * d
  }

  lemma FourBytes(buf: seq<Byte>, at: nat)
    requires at + 4 <= |buf|
    ensures U32At(buf, at) == Quad(buf[at], buf[at + 1], buf[at + 2], buf[at + 3])
  {
    var d: int, c: int := buf[at + 3], buf[at + 2];
    assert LittleEndian(buf, at + 4, 0) == 0;
    assert LittleEndian(buf, at + 3, 1) == d;
    assert LittleEndian(buf, at + 2, 2) == c + 0x100 * d;
  }

  // ----- parsing -----

  datatype CieInfo = CieInfo(
    codeAlign: Word, dataAlign: Word, retColumn: Word,
    ptrType: Byte, callFrame: nat, augLen: Word, start: nat, end: nat)

  /** The start of the instructions may lie before the record, and before the section. */
  datatype FdeInfo = FdeInfo(startLoc: Word, locRange: Word, start: int, end: nat)

  /** The first zero byte of a range. */
  function FindZero(buf: seq<Byte>, pos: nat, end: nat): (r: Option<nat>)
    ensures r.Some? ==> pos <= r.value < end && ByteAt(buf, r.value) == 0
    ensures r.Some? ==> forall i :: pos <= i < r.value ==> ByteAt(buf, i) != 0
    ensures r.None? ==> forall i :: pos <= i < end ==> ByteAt(buf, i) != 0
    decreases end - pos
  {
    if pos >= end then None
    else if ByteAt(buf, pos) == 0 then Some(pos)
    else FindZero(buf, pos + 1, end)
  }

  /** The cursor in the augmentation data and what the string has set so far. */
  datatype AugState = AugState(cur: nat, ptrType: Byte, callFrame: nat)

  const CHAR_z: Byte := 0x7a
  const CHAR_L: Byte := 0x4c
  const CHAR_P: Byte := 0x50
  const CHAR_R: Byte := 0x52
  const CHAR_S: Byte := 0x53

  function AugChar(sec: Section, c: Byte, limit: nat, a: AugState): (r: Option<AugState>)
    ensures r.Some? && a.callFrame <= 1 ==> r.value.callFrame <= 1
  {
    if a.cur > limit then None
    else if c == CHAR_z then Some(a)
    else if c == CHAR_L then Some(a.(cur := a.cur + 1))
    else if c == CHAR_P then
      var p := ReadPointer(sec, a.cur + 1, limit, ByteAt(sec.buf, a.cur) % 128);
      if p.value == 0 then None else Some(a.(cur := p.pos))
    else if c == CHAR_R then Some(a.(cur := a.cur + 1, ptrType := ByteAt(sec.buf, a.cur)))
    else if c == CHAR_S then Some(a.(callFrame := 0))
    else None
  }

  /** What a letter cannot be: unknown, a null personality, or met with the data used up. */
  lemma LetterRefused(sec: Section, c: Byte, limit: nat, a: AugState)
    requires || a.cur > limit || c !in {'z' as int, 'L' as int, 'P' as int, 'R' as int, 'S' as int}
             || (c == 'P' as int && ReadPointer(sec, a.cur + 1, limit, ByteAt(sec.buf, a.cur) % 128).value == 0)
    ensures AugChar(sec, c, limit, a) == None
  {
    hide ReadPtr;
  }

  function AugLoop(sec: Section, aug: nat, limit: nat, a: AugState): (r: Option<AugState>)
    ensures r.Some? && a.callFrame <= 1 ==> r.value.callFrame <= 1
    decreases |sec.buf| - aug
  {
    var c := ByteAt(sec.buf, aug);
    if c == 0 then Some(a) else
    var next := AugChar(sec, c, limit, a);
    if next.None? then None else AugLoop(sec, aug + 1, limit, next.value)
  }

  /** The length of the augmentation data, present when the string starts with z. A length that
      wraps round the address space is refused here; the code refuses it at the first letter,
      which finds its cursor behind the end of the data. */
  function AugLength(sec: Section, aug: nat, cur: nat, end: nat): Option<Decoded> {
    if ByteAt(sec.buf, aug) != CHAR_z then Some(Decoded(0, cur)) else
    var len := GetUleb(sec.buf, cur, end);
    if len.cur + len.value > end then None else Some(len)
  }

  function RetColumn(sec: Section, version: Byte, cur: nat, end: nat): Decoded {
    if version <= 1 then Decoded(ByteAt(sec.buf, cur), cur + 1) else GetUleb(sec.buf, cur, end)
  }

  function ParseCie(sec: Section, cie: nat): (r: Option<CieInfo>)
    ensures r.Some? ==> r.value.codeAlign != 0 && r.value.end == RecordEnd(sec.buf, cie) && r.value.callFrame <= 1
  {
    var end := RecordEnd(sec.buf, cie);
    var aug := cie + 9;
    var nul := FindZero(sec.buf, aug, end);
    if nul.None? then None else
    var code := GetUleb(sec.buf, nul.value + 1, end);
    var data := GetSleb(sec.buf, code.cur, end);
    if code.value == 0 || data.value == 0 then None else
    var ret := RetColumn(sec, ByteAt(sec.buf, cie + 8), data.cur, end);
    var len := AugLength(sec, aug, ret.cur, end);
    if len.None? then None else
    var start := len.value.cur + len.value.value;
    var a := AugLoop(sec, aug, start, AugState(len.value.cur, 0, 1));
    if a.None? || a.value.cur != start then None
    else
      Some(CieInfo(code.value, data.value, ret.value, a.value.ptrType, a.value.callFrame,
                   len.value.value, start, end))
  }

  /** The offset of the address behind augmentation data, which wraps. */
  function AfterData(sec: Section, len: Decoded): int {
    Wrap(sec.base + len.cur + len.value) - sec.base
  }

  /** The two tests of the augmentation length are the code's: a difference with its operands
      exchanged, which only refuses lengths close to 2^64, and a comparison of addresses. */
  function ParseFde(sec: Section, fde: nat, ptrType: Byte, augLen: Word): Option<FdeInfo> {
    var end := RecordEnd(sec.buf, fde);
    var loc := ReadPointer(sec, fde + 8, end, ptrType);
    var range := ReadPointer(sec, loc.pos, end, ptrType % 16);
    if augLen == 0 then Some(FdeInfo(loc.value, range.value, range.pos, end)) else
    var len := GetUleb(sec.buf, range.pos, end);
    var start := AfterData(sec, len);
    if len.value > Wrap(fde - end) || start > end then None
    else Some(FdeInfo(loc.value, range.value, start, end))
  }

  /** Where the augmentation length is read. */
  function AugLengthAt(sec: Section, fde: nat, ptrType: Byte): Decoded {
    var end := RecordEnd(sec.buf, fde);
    var loc := ReadPointer(sec, fde + 8, end, ptrType);
    GetUleb(sec.buf, ReadPointer(sec, loc.pos, end, ptrType % 16).pos, end)
  }

  /** An FDE with augmentation is accepted when its data ends inside the record, and also when the
      length wraps and is not longer than 2^64 less the record. The instructions start inside the
      body of the record if and only if the data ends there. */
  lemma FdeStartInside(sec: Section, fde: nat, ptrType: Byte, augLen: Word)
    requires augLen != 0 && sec.base + RecordEnd(sec.buf, fde) < TWO64
    ensures var len, end := AugLengthAt(sec, fde, ptrType), RecordEnd(sec.buf, fde);
            var f := ParseFde(sec, fde, ptrType, augLen);
            var inside := len.cur + len.value <= end;
            && (f.Some? <==>
                  || inside
                  || (sec.base + len.cur + len.value >= TWO64 && len.value + (end - fde) <= TWO64))
            && (f.Some? ==> (fde + 8 <= f.value.start <= end <==> inside))
  {
    hide Uleb, ReadPtr, U32At;
    var len, end := AugLengthAt(sec, fde, ptrType), RecordEnd(sec.buf, fde);
    assert len.cur >= fde + 8;
    assert Wrap(fde - end) == TWO64 + fde - end;
    assert len.cur <= end + 1 || len.value == 0 by { LengthCursor(sec, fde, ptrType); }
  }

  lemma LengthCursor(sec: Section, fde: nat, ptrType: Byte)
    ensures var len := AugLengthAt(sec, fde, ptrType);
            len.cur <= RecordEnd(sec.buf, fde) + 1 || len.value == 0
  {
    hide ReadPtr, U32At;
  }

  /** Data that ends inside the record passes both tests. */
  lemma DataInside(sec: Section, fde: nat, len: Decoded)
    requires sec.base + RecordEnd(sec.buf, fde) < TWO64
    requires fde <= len.cur && len.cur + len.value <= RecordEnd(sec.buf, fde)
    ensures AfterData(sec, len) == len.cur + len.value && len.value <= Wrap(fde - RecordEnd(sec.buf, fde))
  {
    hide U32At;
  }

  /** A whole family of accepted FDEs whose instructions start before their own record: an
      augmentation length of 2^64 - k with k at least the size of the record. */
  lemma WrappedLengthAccepted(sec: Section, fde: nat, ptrType: Byte, augLen: Word, pos: nat, k: Word)
    requires augLen != 0 && sec.base + RecordEnd(sec.buf, fde) < TWO64
    requires var loc := ReadPointer(sec, fde + 8, RecordEnd(sec.buf, fde), ptrType);
             pos == ReadPointer(sec, loc.pos, RecordEnd(sec.buf, fde), ptrType % 16).pos
    requires RecordEnd(sec.buf, fde) - fde <= k <= sec.base + pos
    requires Holds(sec.buf, pos, UlebEncode(TWO64 - k)) && pos + |UlebEncode(TWO64 - k)| <= RecordEnd(sec.buf, fde)
    ensures var f := ParseFde(sec, fde, ptrType, augLen);
            f.Some? && f.value.start == pos + |UlebEncode(TWO64 - k)| - k <= fde
  {
    hide Uleb, UlebEncode, ReadPtr, U32At, Holds;
    UlebRoundTrip(sec.buf, pos, RecordEnd(sec.buf, fde), TWO64 - k);
  }

  method ScanAugmentation(sec: Section, start: nat, limit: nat, init: AugState) returns (r: Option<AugState>)
    ensures r == AugLoop(sec, start, limit, init)
  {
    var aug, a := start, init;
    while ByteAt(sec.buf, aug) != 0
      invariant AugLoop(sec, aug, limit, a) == AugLoop(sec, start, limit, init)
      decreases |sec.buf| - aug
    {
      var next := AugChar(sec, ByteAt(sec.buf, aug), limit, a);
      if next.None? {
        return None;
      }
      a, aug := next.value, aug + 1;
    }
    r := Some(a);
  }

  method ParseFdeCie(sec: Section, fde: nat, cie: nat) returns (r: Option<(CieInfo, FdeInfo)>)
    ensures r == match ParseCie(sec, cie)
                 case None => None
                 case Some(c) =>
                   match ParseFde(sec, fde, c.ptrType, c.augLen)
                   case None => None
                   case Some(f) => Some((c, f))
  {
    hide Uleb, Sleb, AugLoop, FindZero, LittleEndian, ParseFde, RetColumn, U32At;
    var end := RecordEnd(sec.buf, cie);
    var aug := cie + 9;
    var nul := FindZero(sec.buf, aug, end);
    if nul.None? {
      return None;
    }
    var codeAlign, cur := ReadUleb128(sec.buf, nul.value + 1, end);
    var dataAlign;
    dataAlign, cur := ReadSleb128(sec.buf, cur, end);
    if codeAlign == 0 || dataAlign == 0 {
      return None;
    }
    var ret := RetColumn(sec, ByteAt(sec.buf, cie + 8), cur, end);
    cur := ret.cur;
    var augLen := 0;
    if ByteAt(sec.buf, aug) == CHAR_z {
      augLen, cur := ReadUleb128(sec.buf, cur, end);
      if cur + augLen > end {
        return None;
      }
    }
    var start := cur + augLen;
    var a := ScanAugmentation(sec, aug, start, AugState(cur, 0, 1));
    if a.None? || a.value.cur != start {
      return None;
    }
    var info := CieInfo(codeAlign, dataAlign, ret.value, a.value.ptrType, a.value.callFrame, augLen, start, end);
    var f := ParseFde(sec, fde, info.ptrType, augLen);
    r := if f.None? then None else Some((info, f.value));
  }
}
