/** Whole CIE and FDE records, header and instructions, as an encoder lays them out, and the proof
    that they pass the header checks and parse back. */
module FrameRecords {
  import opened Words
  import opened Leb128
  import opened EncodedPointer
  import opened FrameHeaders

  // ----- the FDE header -----

  /** The pointer to the first location, the size of the range, and the augmentation data. */
  datatype FdeHeader = FdeHeader(start: Word, range: Word, data: seq<Byte>)

  /** The range is encoded as the start is, relative to nothing. */
  function RangeEncoding(enc: Byte): Byte {
    enc % 16
  }

  function StartBytes(base: Word, fde: nat, enc: Byte, f: FdeHeader): seq<Byte> {
    EncodePtr(base, fde + 8, enc, f.start, 0, 0)
  }

  function RangeBytes(enc: Byte, f: FdeHeader): seq<Byte> {
    EncodeRaw(RangeEncoding(enc), f.range)
  }

  /** The augmentation data and its length are there when the CIE's string starts with z. */
  function FdeAugmentation(z: bool, f: FdeHeader): seq<Byte> {
    if z then UlebEncode(|f.data|) + f.data else []
  }

  /** The bytes after the pointer to the CIE. */
  function EncodeFde(base: Word, fde: nat, enc: Byte, z: bool, f: FdeHeader): seq<Byte> {
    StartBytes(base, fde, enc, f) + RangeBytes(enc, f) + FdeAugmentation(z, f)
  }

  ghost predicate WellFormedFde(sec: Section, fde: nat, enc: Byte, f: FdeHeader) {
    && PtrFits(sec.base, fde + 8, enc, f.start, 0, 0) && Target(sec, enc, f.start).Some?
    && FormHolds(RangeEncoding(enc), f.range) && |f.data| < TWO64
  }

  lemma RangeReads(sec: Section, pos: nat, end: nat, enc: Byte, range: Word)
    requires Known(enc) && FormHolds(RangeEncoding(enc), range)
    requires Holds(sec.buf, pos, EncodeRaw(RangeEncoding(enc), range))
    requires pos + |EncodeRaw(RangeEncoding(enc), range)| <= end
    ensures ReadPointer(sec, pos, end, RangeEncoding(enc)) ==
            Ptr(range, pos + |EncodeRaw(RangeEncoding(enc), range)|)
  {
    hide EncodeRaw, FormHolds, ReadPtr, Holds;
    PlainForm(enc);
    assert Unbiased(sec.base, pos, RangeEncoding(enc), range, 0, 0) == range;
    PointerRoundTrip(sec, pos, end, RangeEncoding(enc), range, 0, 0);
  }

  lemma PlainForm(enc: Byte)
    requires Known(enc)
    ensures Known(RangeEncoding(enc)) && Adjust(RangeEncoding(enc)) == 0 && !IsIndirect(RangeEncoding(enc))
  {
    var low: int := enc % 16;
    assert low / 16 == 0 && low % 8 == enc % 8;
  }

  /** Parsing an FDE gives back its start and range. The instructions are found behind the
      augmentation data if and only if the CIE has augmentation data of its own or no z at all:
      a z without data makes the parser take the length field for the first instruction. */
  lemma FdeRoundTrips(sec: Section, fde: nat, enc: Byte, z: bool, f: FdeHeader, augLen: Word)
    requires WellFormedFde(sec, fde, enc, f) && (augLen != 0 ==> z)
    requires sec.base + RecordEnd(sec.buf, fde) < TWO64
    requires Holds(sec.buf, fde + 8, EncodeFde(sec.base, fde, enc, z, f))
    requires fde + 8 + |EncodeFde(sec.base, fde, enc, z, f)| <= RecordEnd(sec.buf, fde)
    ensures var behind := fde + 8 + |EncodeFde(sec.base, fde, enc, z, f)|;
            var r := ParseFde(sec, fde, enc, augLen);
            && r.Some?
            && r.value.startLoc == Target(sec, enc, f.start).value && r.value.locRange == f.range
            && r.value.end == RecordEnd(sec.buf, fde)
            && r.value.start == behind - (if augLen == 0 then |FdeAugmentation(z, f)| else 0)
            && (r.value.start == behind <==> augLen != 0 || !z)
  {
    hide EncodePtr, EncodeRaw, RecordEnd, UlebEncode, Uleb, ReadPtr, FormHolds, PtrFits, Holds, Target, Known;
    hide AfterData, Wrap;
    assert Known(enc) by { PtrFitsIsKnown(sec.base, fde + 8, enc, f.start); }
    var a, b, c := StartBytes(sec.base, fde, enc, f), RangeBytes(enc, f), FdeAugmentation(z, f);
    var end := RecordEnd(sec.buf, fde);
    HoldsSplit(sec.buf, fde + 8, a + b, c);
    HoldsSplit(sec.buf, fde + 8, a, b);
    PointerRoundTrip(sec, fde + 8, end, enc, f.start, 0, 0);
    RangeReads(sec, fde + 8 + |a|, end, enc, f.range);
    UlebEncodeIsGroup(|f.data|);
    if augLen != 0 {
      DataReads(sec, fde + 8 + |a| + |b|, end, f);
      DataInside(sec, fde, GetUleb(sec.buf, fde + 8 + |a| + |b|, end));
    }
  }

  lemma DataReads(sec: Section, pos: nat, end: nat, f: FdeHeader)
    requires |f.data| < TWO64
    requires Holds(sec.buf, pos, FdeAugmentation(true, f)) && pos + |FdeAugmentation(true, f)| <= end
    ensures var len := GetUleb(sec.buf, pos, end);
            len.value == |f.data| && len.cur + len.value == pos + |FdeAugmentation(true, f)|
  {
    hide UlebEncode, Uleb, Holds;
    HoldsSplit(sec.buf, pos, UlebEncode(|f.data|), f.data);
    UlebRoundTrip(sec.buf, pos, end, |f.data|);
  }

  lemma PtrFitsIsKnown(base: Word, pos: nat, enc: Byte, addr: Word)
    requires PtrFits(base, pos, enc, addr, 0, 0)
    ensures Known(enc)
  {
  }

  // ----- records -----

  /** The length field, the id or back pointer, and the rest. */
  function Record(id: nat, body: seq<Byte>): seq<Byte> {
    ToLittleEndian(4 + |body|, INT_SIZE) + ToLittleEndian(id, INT_SIZE) + body
  }

  lemma RecordHeld(buf: seq<Byte>, at: nat, id: nat, body: seq<Byte>)
    requires Holds(buf, at, Record(id, body)) && 4 + |body| < TWO32 && id < TWO32
    ensures U32At(buf, at) == 4 + |body| && U32At(buf, at + 4) == id && Holds(buf, at + 8, body)
    ensures RecordEnd(buf, at) == at + 8 + |body| <= |buf|
  {
    hide LittleEndian, ToLittleEndian, Pow2;
    var len, word := ToLittleEndian(4 + |body|, INT_SIZE), ToLittleEndian(id, INT_SIZE);
    HoldsSplit(buf, at, len + word, body);
    HoldsSplit(buf, at, len, word);
    Pow2Bytes();
    LittleEndianRoundTrip(buf, at, 4 + |body|, INT_SIZE);
    LittleEndianRoundTrip(buf, at + 4, id, INT_SIZE);
  }

  /** A CIE and, behind it, an FDE that points back to it; both in whole words of the section. */
  ghost predicate HoldsRecords(buf: seq<Byte>, cie: nat, cieBody: seq<Byte>, fde: nat, fdeBody: seq<Byte>) {
    && Holds(buf, cie, Record(0, cieBody)) && 4 + |cieBody| < TWO32
    && cie + 8 + |cieBody| <= fde && (fde - cie) % 4 == 0 && fde + 4 - cie < TWO32
    && Holds(buf, fde, Record(fde + 4 - cie, fdeBody)) && 4 + |fdeBody| < TWO32 && |fdeBody| % 4 == 0
  }

  /** Such records pass the checks of the header parser. */
  lemma RecordsPass(buf: seq<Byte>, cie: nat, cieBody: seq<Byte>, fde: nat, fdeBody: seq<Byte>)
    requires HoldsRecords(buf, cie, cieBody, fde, fdeBody)
    requires |cieBody| >= 5 && cieBody[0] in {1, 3, 4}
    ensures CheckFde(buf, fde) && CieForFde(buf, fde) == Some(cie)
  {
    hide U32At, Record;
    RecordHeld(buf, cie, 0, cieBody);
    RecordHeld(buf, fde, fde + 4 - cie, fdeBody);
    HoldsHead(buf, cie + 8, cieBody);
    FourApart(fde, cie);
  }

  lemma FourApart(fde: nat, cie: nat)
    requires cie < fde && (fde - cie) % 4 == 0
    ensures (fde + 4 - cie) % 4 == 0 && fde + 4 - cie != 0xffff_ffff
  {
  }
}
