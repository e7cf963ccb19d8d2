/** An encoder for CIE headers and the proof that parsing inverts it. */
module CieRoundTrip {
  import opened Words
  import opened Leb128
  import opened EncodedPointer
  import opened FrameHeaders

  /** One letter of the augmentation string, after the leading z, with its data. */
  datatype Aug = PtrEncoding(enc: Byte) | LsdaEncoding(enc: Byte) | Personality(enc: Byte, ptr: seq<Byte>) | SignalFrame

  /** A header; `augs` is nothing when the string is empty, otherwise it starts with z. */
  datatype Header = Header(version: Byte, augs: Option<seq<Aug>>, codeAlign: Word, dataAlign: int, retColumn: Word)

  function Letter(a: Aug): Byte {
    match a
    case PtrEncoding(_) => 'R' as int
    case LsdaEncoding(_) => 'L' as int
    case Personality(_, _) => 'P' as int
    case SignalFrame => 'S' as int
  }

  function Data(a: Aug): seq<Byte> {
    match a
    case PtrEncoding(enc) => [enc]
    case LsdaEncoding(enc) => [enc]
    case Personality(enc, ptr) => [enc] + ptr
    case SignalFrame => []
  }

  function Letters(augs: seq<Aug>): (r: seq<Byte>)
    ensures |r| == |augs|
  {
    if augs == [] then [] else [Letter(augs[0])] + Letters(augs[1..])
  }

  function AllData(augs: seq<Aug>): seq<Byte> {
    if augs == [] then [] else Data(augs[0]) + AllData(augs[1..])
  }

  function AugString(h: Header): seq<Byte> {
    match h.augs
    case None => []
    case Some(augs) => ['z' as int] + Letters(augs)
  }

  function AugData(h: Header): seq<Byte> {
    match h.augs
    case None => []
    case Some(augs) => UlebEncode(|AllData(augs)|) + AllData(augs)
  }

  function RetBytes(h: Header): seq<Byte> {
    if h.version <= 1 then [h.retColumn % 256] else UlebEncode(h.retColumn)
  }

  function Factors(h: Header): seq<Byte> {
    UlebEncode(h.codeAlign) + SlebEncode(h.dataAlign) + RetBytes(h)
  }

  /** The bytes from the version on. */
  function EncodeHeader(h: Header): seq<Byte> {
    [h.version] + (AugString(h) + [0]) + Factors(h) + AugData(h)
  }

  // ----- what the header says -----

  /** The last pointer encoding given, absolute when none is. */
  function PointerEncoding(augs: seq<Aug>, otherwise: Byte): Byte {
    if augs == [] then otherwise
    else PointerEncoding(augs[1..], if augs[0].PtrEncoding? then augs[0].enc else otherwise)
  }

  /** 0 for the frame of a signal handler, whose pc is exact, and 1 for a call. */
  function CallFrame(augs: seq<Aug>, otherwise: nat): (r: nat)
    ensures otherwise <= 1 ==> r <= 1
  {
    if augs == [] then otherwise
    else CallFrame(augs[1..], if augs[0].SignalFrame? then 0 else otherwise)
  }

  function Augs(h: Header): seq<Aug> {
    if h.augs.Some? then h.augs.value else []
  }

  // ----- well-formed headers -----

  /** Bytes that are one pointer in an encoding: a word of the form's size, or a LEB128 group of at
      most ten bytes that fits in a word. */
  ghost predicate PointerBytes(enc: Byte, ptr: seq<Byte>) {
    match Form(enc)
    case 0 => |ptr| == 8
    case 1 => Group(ptr) && |ptr| <= 10 && Number(ptr) < TWO64
    case 2 => |ptr| == 2
    case 3 => |ptr| == 4
    case 4 => |ptr| == 8
    case _ => false
  }

  /** Personality pointers in an encoding the reader knows, whose address is not null where they
      lie. The reader masks off the indirect bit. */
  ghost predicate PersonalitiesOk(sec: Section, augs: seq<Aug>, pos: nat, limit: nat) {
    augs != [] ==>
      && (augs[0].Personality? ==>
            && PointerBytes(augs[0].enc, augs[0].ptr) && Adjust(augs[0].enc) <= 3
            && ReadPointer(sec, pos + 1, limit, augs[0].enc % 128).value != 0)
      && PersonalitiesOk(sec, augs[1..], pos + |Data(augs[0])|, limit)
  }

  predicate WellFormed(h: Header) {
    && (h.version == 1 || h.version == 3)
    && SlebExact(h.dataAlign)
    && (h.version == 1 ==> h.retColumn < 256)
    && |AllData(Augs(h))| < TWO64
  }

  // ----- round trip -----

  lemma {:induction false} LettersNotZero(augs: seq<Aug>)
    ensures forall i :: 0 <= i < |augs| ==> Letters(augs)[i] != 0
  {
    if augs != [] {
      LettersNotZero(augs[1..]);
    }
  }

  lemma FindsTerminator(buf: seq<Byte>, pos: nat, end: nat, h: Header)
    requires Holds(buf, pos, AugString(h) + [0]) && pos + |AugString(h)| < end
    ensures FindZero(buf, pos, end) == Some(pos + |AugString(h)|)
  {
    hide Letters;
    var s := AugString(h);
    if h.augs.Some? {
      LettersNotZero(h.augs.value);
    }
    HoldsSplit(buf, pos, s, [0]);
    HoldsHead(buf, pos + |s|, [0]);
    forall i | pos <= i < pos + |s|
      ensures ByteAt(buf, i) != 0
    {
      assert buf[pos..pos + |s|][i - pos] == s[i - pos];
    }
  }

  lemma PointerBytesRead(sec: Section, pos: nat, limit: nat, enc: Byte, ptr: seq<Byte>)
    requires PointerBytes(enc, ptr) && Adjust(enc) <= 3 && enc < 128
    requires Holds(sec.buf, pos, ptr) && pos + |ptr| <= limit
    ensures ReadPointer(sec, pos, limit, enc).pos == pos + |ptr|
  {
    hide LittleEndian, SignExtend, Uleb, Sleb, SignFill, Bias;
    if Form(enc) == 1 {
      GetUlebReadsGroup(sec.buf, pos, limit, ptr);
      SlebIsUlebFilled(sec.buf, pos, limit, 0, 0);
    }
  }

  lemma LowEncoding(enc: Byte)
    ensures Form(enc % 128) == Form(enc) && Adjust(enc % 128) == Adjust(enc)
  {
    if enc >= 128 {
      var low: int := enc - 128;
      assert enc % 128 == low;
      assert low % 8 == (low + 8 * 16) % 8;
      assert (low + 128) / 16 == low / 16 + 8;
    }
  }

  lemma LetterReads(sec: Section, a: Aug, limit: nat, st: AugState)
    requires Holds(sec.buf, st.cur, Data(a)) && st.cur + |Data(a)| <= limit
    requires a.Personality? ==>
               && PointerBytes(a.enc, a.ptr) && Adjust(a.enc) <= 3
               && ReadPointer(sec, st.cur + 1, limit, a.enc % 128).value != 0
    ensures AugChar(sec, Letter(a), limit, st) ==
            Some(AugState(st.cur + |Data(a)|,
                          if a.PtrEncoding? then a.enc else st.ptrType,
                          if a.SignalFrame? then 0 else st.callFrame))
  {
    hide ReadPointer, PointerBytes, Adjust, Holds;
    if !a.SignalFrame? {
      HoldsHead(sec.buf, st.cur, Data(a));
      assert ByteAt(sec.buf, st.cur) == a.enc;
    }
    if a.Personality? {
      PersonalityReads(sec, a, limit, st.cur);
    }
  }

  lemma PersonalityReads(sec: Section, a: Aug, limit: nat, cur: nat)
    requires a.Personality? && PointerBytes(a.enc, a.ptr) && Adjust(a.enc) <= 3
    requires Holds(sec.buf, cur, Data(a)) && cur + |Data(a)| <= limit
    ensures ReadPointer(sec, cur + 1, limit, a.enc % 128).pos == cur + |Data(a)|
  {
    hide ReadPointer, Adjust, Holds;
    LowEncoding(a.enc);
    HoldsSplit(sec.buf, cur, [a.enc], a.ptr);
    PointerBytesRead(sec, cur + 1, limit, a.enc % 128, a.ptr);
  }

  /** The augmentation loop reads back every letter and stops at the end of the data. */
  lemma {:induction false} LoopReads(sec: Section, augs: seq<Aug>, aug: nat, limit: nat, st: AugState)
    requires Holds(sec.buf, aug, Letters(augs) + [0])
    requires Holds(sec.buf, st.cur, AllData(augs)) && st.cur + |AllData(augs)| == limit
    requires PersonalitiesOk(sec, augs, st.cur, limit)
    ensures AugLoop(sec, aug, limit, st) ==
            Some(AugState(limit, PointerEncoding(augs, st.ptrType), CallFrame(augs, st.callFrame)))
    decreases |augs|
  {
    hide AugChar, Data, ReadPointer, Form, Adjust, PointerBytes;
    HoldsHead(sec.buf, aug, Letters(augs) + [0]);
    if augs != [] {
      var rest := augs[1..];
      assert (Letters(augs) + [0])[1..] == Letters(rest) + [0];
      HoldsSplit(sec.buf, st.cur, Data(augs[0]), AllData(rest));
      LetterReads(sec, augs[0], limit, st);
      var next := AugChar(sec, Letter(augs[0]), limit, st).value;
      LoopReads(sec, rest, aug + 1, limit, next);
    }
  }

  /** The z at the front is a letter without data. */
  lemma StringReads(sec: Section, h: Header, aug: nat, cur: nat, limit: nat)
    requires Holds(sec.buf, aug, AugString(h) + [0])
    requires Holds(sec.buf, cur, AllData(Augs(h))) && cur + |AllData(Augs(h))| == limit
    requires PersonalitiesOk(sec, Augs(h), cur, limit)
    ensures AugLoop(sec, aug, limit, AugState(cur, 0, 1)) ==
            Some(AugState(limit, PointerEncoding(Augs(h), 0), CallFrame(Augs(h), 1)))
  {
    hide Letters, AllData, PersonalitiesOk, Holds, ReadPointer;
    HoldsHead(sec.buf, aug, AugString(h) + [0]);
    if h.augs.None? {
      EmptyData();
    } else {
      assert (AugString(h) + [0])[1..] == Letters(Augs(h)) + [0];
      LoopReads(sec, Augs(h), aug + 1, limit, AugState(cur, 0, 1));
    }
  }

  /** The three factors, one after the other. */
  lemma FactorsRead(sec: Section, h: Header, cur: nat, end: nat)
    requires WellFormed(h) && Holds(sec.buf, cur, Factors(h)) && cur + |Factors(h)| <= end
    ensures var code := GetUleb(sec.buf, cur, end);
            var data := GetSleb(sec.buf, code.cur, end);
            && code.value == h.codeAlign && data.value == Wrap(h.dataAlign)
            && RetColumn(sec, h.version, data.cur, end) == Decoded(h.retColumn, cur + |Factors(h)|)
  {
    hide Uleb, Sleb, UlebEncode, SlebEncode, RetBytes, RetColumn, Holds, AllData, Wrap;
    var a, b, c := UlebEncode(h.codeAlign), SlebEncode(h.dataAlign), RetBytes(h);
    HoldsSplit(sec.buf, cur, a + b, c);
    HoldsSplit(sec.buf, cur, a, b);
    UlebRoundTrip(sec.buf, cur, end, h.codeAlign);
    SlebRoundTrip(sec.buf, cur + |a|, end, h.dataAlign);
    RetReads(sec, h, cur + |a| + |b|, end);
  }

  lemma RetReads(sec: Section, h: Header, cur: nat, end: nat)
    requires WellFormed(h) && Holds(sec.buf, cur, RetBytes(h)) && cur + |RetBytes(h)| <= end
    ensures RetColumn(sec, h.version, cur, end) == Decoded(h.retColumn, cur + |RetBytes(h)|)
  {
    hide Uleb, UlebEncode, Holds, AllData;
    if h.version == 1 {
      HoldsHead(sec.buf, cur, RetBytes(h));
    } else {
      UlebRoundTrip(sec.buf, cur, end, h.retColumn);
    }
  }

  lemma LengthReads(sec: Section, h: Header, aug: nat, cur: nat, end: nat)
    requires |AllData(Augs(h))| < TWO64
    requires Holds(sec.buf, aug, AugString(h) + [0]) && Holds(sec.buf, cur, AugData(h)) && cur + |AugData(h)| <= end
    ensures var data := AllData(Augs(h));
            && AugLength(sec, aug, cur, end) == Some(Decoded(|data|, cur + |AugData(h)| - |data|))
            && Holds(sec.buf, cur + |AugData(h)| - |data|, data)
  {
    hide Uleb, UlebEncode, AllData, Holds, Letters;
    HoldsHead(sec.buf, aug, AugString(h) + [0]);
    var data := AllData(Augs(h));
    if h.augs.Some? {
      assert ByteAt(sec.buf, aug) == CHAR_z;
      HoldsSplit(sec.buf, cur, UlebEncode(|data|), data);
      UlebRoundTrip(sec.buf, cur, end, |data|);
    } else {
      assert data == [] by { EmptyData(); }
      assert ByteAt(sec.buf, aug) == 0;
    }
  }

  lemma EmptyData()
    ensures AllData([]) == []
  {
  }

  /** Parsing a CIE gives back what its header was made from, and the instructions start where
      the declared augmentation data ends; a factor of zero, and only that, is refused. */
  lemma CieRoundTrips(sec: Section, h: Header, cie: nat)
    requires WellFormed(h)
    requires Holds(sec.buf, cie + 8, EncodeHeader(h)) && cie + 8 + |EncodeHeader(h)| <= RecordEnd(sec.buf, cie)
    requires var start := cie + 8 + |EncodeHeader(h)|;
             PersonalitiesOk(sec, Augs(h), start - |AllData(Augs(h))|, start)
    ensures ParseCie(sec, cie) ==
            if h.codeAlign == 0 || h.dataAlign == 0 then None
            else Some(CieInfo(
              h.codeAlign, Wrap(h.dataAlign), h.retColumn,
              PointerEncoding(Augs(h), 0), CallFrame(Augs(h), 1),
              |AllData(Augs(h))|, cie + 8 + |EncodeHeader(h)|, RecordEnd(sec.buf, cie)))
  {
    hide Uleb, Sleb, AugLoop, FindZero, U32At, AugLength, RetColumn, Holds;
    hide EncodeHeader, AugString, Factors, AugData, AllData, PersonalitiesOk, PointerEncoding, CallFrame;
    var end := RecordEnd(sec.buf, cie);
    var s, f, d := |AugString(h)| + 1, |Factors(h)|, |AugData(h)|;
    var aug := cie + 9;
    HeaderPieces(sec.buf, h, cie + 8);
    FindsTerminator(sec.buf, aug, end, h);
    FactorsRead(sec, h, aug + s, end);
    LengthReads(sec, h, aug, aug + s + f, end);
    assert Wrap(h.dataAlign) == 0 <==> h.dataAlign == 0;
    StringReads(sec, h, aug, aug + s + f + d - |AllData(Augs(h))|, aug + s + f + d);
  }

  lemma HeaderPieces(buf: seq<Byte>, h: Header, at: nat)
    requires Holds(buf, at, EncodeHeader(h))
    ensures var s, f, d := AugString(h) + [0], Factors(h), AugData(h);
            && ByteAt(buf, at) == h.version
            && Holds(buf, at + 1, s)
            && Holds(buf, at + 1 + |s|, f)
            && Holds(buf, at + 1 + |s| + |f|, d)
            && |EncodeHeader(h)| == 1 + |s| + |f| + |d|
  {
    hide AugString, Factors, AugData;
    var s, f, d := AugString(h) + [0], Factors(h), AugData(h);
    HoldsSplit(buf, at, [h.version] + s + f, d);
    HoldsSplit(buf, at, [h.version] + s, f);
    HoldsSplit(buf, at, [h.version], s);
    HoldsHead(buf, at, [h.version]);
  }
}
